/**
 * The backtracking driver `tile_board` of psolver.py:111-167 and the set-up
 * around it (psolver.py:201-217).  The pieces are objects whose mask the
 * search turns and mirrors in place; the board is the framed array of
 * module Board.  `exit(0)` on the first solution becomes a returned stop
 * flag that every frame passes up at once, and a printed solution becomes
 * a snapshot of the interior added to the returned list.
 */
module Search {
  import opened Masks
  import opened Regions
  import opened Grids
  import opened Catalog
  import opened Correlation
  import opened Placement
  import opened Board

  /**
   * The piece list `p` of psolver.py:129: entry k is `[mask, mirror images,
   * rotations]`, and the search reassigns the masks in place.
   */
  class PieceList {
    var masks: seq<Mask>
    const size: nat
    const mirrors: seq<nat>
    const rotations: seq<nat>

    predicate Valid()
      reads this
    {
      |masks| == size && |mirrors| == size && |rotations| == size
    }

    /** The list `[pentominos[i-1] for i in ids]` (psolver.py:201). */
    constructor (shapes: seq<Shape>)
      ensures Valid() && size == |shapes|
      ensures masks == seq(|shapes|, k requires 0 <= k < |shapes| => shapes[k].mask)
      ensures mirrors == seq(|shapes|, k requires 0 <= k < |shapes| => shapes[k].mirrors)
      ensures rotations == seq(|shapes|, k requires 0 <= k < |shapes| => shapes[k].rotations)
    {
      size := |shapes|;
      masks := seq(|shapes|, k requires 0 <= k < |shapes| => shapes[k].mask);
      mirrors := seq(|shapes|, k requires 0 <= k < |shapes| => shapes[k].mirrors);
      rotations := seq(|shapes|, k requires 0 <= k < |shapes| => shapes[k].rotations);
    }

    /** `piece[0] = np.rot90(piece[0])` for entry k (psolver.py:139, 164). */
    method Rotate(k: nat)
      requires Valid() && k < |masks|
      modifies this
      ensures Valid()
      ensures masks == old(masks)[k := Rot90(old(masks)[k])]
    {
      masks := masks[k := Rot90(masks[k])];
    }

    /** `piece[0] = np.flip(piece[0], axis=1)` for entry k (psolver.py:166). */
    method Mirror(k: nat)
      requires Valid() && k < |masks|
      modifies this
      ensures Valid()
      ensures masks == old(masks)[k := Flip(old(masks)[k])]
    {
      masks := masks[k := Flip(masks[k])];
    }
  }

  /** Each of the first `n` masks is one of the eight images of its catalog shape. */
  ghost predicate ImagesBelow(masks: seq<Mask>, shapes: seq<Mask>, n: nat)
    requires |masks| == |shapes| && n <= |masks|
  {
    n == 0 || (ImagesBelow(masks, shapes, n - 1) && IsImage(masks[n - 1], shapes[n - 1]))
  }

  /** Every shape is one of its own images, so a fresh list meets the invariant. */
  lemma {:induction false} ImagesBelowSelf(shapes: seq<Mask>, n: nat)
    requires n <= |shapes|
    ensures ImagesBelow(shapes, shapes, n)
  {
    if n > 0 {
      ImagesBelowSelf(shapes, n - 1);
      ImageSelf(shapes[n - 1]);
    }
  }

  lemma {:induction false} ImagesBelowAt(masks: seq<Mask>, shapes: seq<Mask>, n: nat, k: nat)
    requires |masks| == |shapes| && k < n <= |masks| && ImagesBelow(masks, shapes, n)
    ensures IsImage(masks[k], shapes[k])
  {
    if k < n - 1 {
      ImagesBelowAt(masks, shapes, n - 1, k);
    }
  }

  /** Replacing one mask by another image of its shape keeps them all images. */
  lemma {:induction false} ImagesBelowUpdate(masks: seq<Mask>, shapes: seq<Mask>, n: nat, k: nat, v: Mask)
    requires |masks| == |shapes| && n <= |masks| && k < |masks|
    requires ImagesBelow(masks, shapes, n) && IsImage(v, shapes[k])
    ensures ImagesBelow(masks[k := v], shapes, n)
  {
    if n > 0 {
      ImagesBelowUpdate(masks, shapes, n - 1, k, v);
      assert masks[k := v][n - 1] == if k == n - 1 then v else masks[n - 1];
    }
  }

  /** A quarter turn of mask `k` keeps every mask an image of its shape. */
  lemma ImagesRot90(masks: seq<Mask>, shapes: seq<Mask>, n: nat, k: nat)
    requires |masks| == |shapes| == n && k < n && ImagesBelow(masks, shapes, n)
    ensures ImagesBelow(masks[k := Rot90(masks[k])], shapes, n)
  {
    ImagesBelowAt(masks, shapes, n, k);
    ImageRot90(masks[k], shapes[k]);
    ImagesBelowUpdate(masks, shapes, n, k, Rot90(masks[k]));
  }

  /** So does mirroring it. */
  lemma ImagesFlip(masks: seq<Mask>, shapes: seq<Mask>, n: nat, k: nat)
    requires |masks| == |shapes| == n && k < n && ImagesBelow(masks, shapes, n)
    ensures ImagesBelow(masks[k := Flip(masks[k])], shapes, n)
  {
    ImagesBelowAt(masks, shapes, n, k);
    ImageFlip(masks[k], shapes[k]);
    ImagesBelowUpdate(masks, shapes, n, k, Flip(masks[k]));
  }

  /** `y` agrees with `x` on every entry but the last `c`. */
  ghost predicate KeepsFirst(x: seq<Mask>, y: seq<Mask>, c: nat)
  {
    |y| == |x| && c <= |x| && y[..|x| - c] == x[..|x| - c]
  }

  /** Keeping all but the last `c - 1` entries keeps all but the last `c`, and entry `|x| - c`. */
  lemma KeepsFirstSplit(x: seq<Mask>, y: seq<Mask>, c: nat)
    requires 0 < c <= |x| && KeepsFirst(x, y, c - 1)
    ensures KeepsFirst(x, y, c) && y[|x| - c] == x[|x| - c]
  {
    assert y[..|x| - c] == y[..|x| - (c - 1)][..|x| - c];
    assert x[..|x| - c] == x[..|x| - (c - 1)][..|x| - c];
    assert y[|x| - c] == y[..|x| - (c - 1)][|x| - c];
    assert x[|x| - c] == x[..|x| - (c - 1)][|x| - c];
  }

  /** Changing one of the last `c` entries keeps the entries before them. */
  lemma KeepsFirstUpdate(x: seq<Mask>, y: seq<Mask>, c: nat, v: Mask)
    requires 0 < c && KeepsFirst(x, y, c)
    ensures KeepsFirst(x, y[|x| - c := v], c)
  {
    assert y[|x| - c := v][..|x| - c] == y[..|x| - c];
  }

  /** Keeping the same first entries is transitive. */
  lemma KeepsFirstTrans(x: seq<Mask>, y: seq<Mask>, z: seq<Mask>, c: nat)
    requires KeepsFirst(x, y, c) && KeepsFirst(y, z, c)
    ensures KeepsFirst(x, z, c)
  {
  }

  /**
   * The invariant of the board between trials: framed, no negative cell,
   * and every empty cell at least two cells from the edge.
   */
  predicate BoardInv(g: Grid)
  {
    IsBoard(g) && NonNegative(g) && ZerosWithin(g, 2)
  }

  /**
   * `s` is a solution the search can reach from board `g` when the last `c`
   * pieces of `shapes` are still to be placed, piece `|shapes| - c` first,
   * with code `|shapes| - c + 1`: each piece in turn is put, in one of its
   * eight orientations, on empty interior cells; the region test passes on
   * the board after each placement; and `s` is the interior once no piece
   * is left.
   */
  ghost predicate Tiles(g: Grid, s: Grid, shapes: seq<Mask>, c: nat)
    requires c <= |shapes|
    decreases c, 1
  {
    IsBoard(g) &&
    if c == 0 then s == Interior(g)
    else exists m: Mask, x: int, y: int :: IsImage(m, shapes[|shapes| - c]) && TilesAt(g, s, shapes, c, m, x, y)
  }

  /**
   * `s` is such a solution whose first placement puts mask `m` centred on
   * board cell (x, y).  The centre lies on the interior, since the
   * correlation in 'same' mode (psolver.py:135) only offers interior
   * positions.
   */
  ghost predicate TilesAt(g: Grid, s: Grid, shapes: seq<Mask>, c: nat, m: Mask, x: int, y: int)
    requires 0 < c <= |shapes|
    decreases c, 0
  {
    && IsBoard(g)
    && InGrid(Interior(g), x - 2, y - 2)
    && Placeable(g, m, x, y)
    && RegionsDivisible(Zeros(Stamped(g, m, x, y, |shapes| - c + 1)), PieceSize)
    && Tiles(Stamped(g, m, x, y, |shapes| - c + 1), s, shapes, c - 1)
  }

  /** `s` is a solution from `g` whose first piece is placed in orientation `m`. */
  ghost predicate TilesWith(g: Grid, s: Grid, shapes: seq<Mask>, c: nat, m: Mask)
    requires 0 < c <= |shapes|
  {
    exists x: int, y: int :: TilesAt(g, s, shapes, c, m, x, y)
  }

  /** The counts listed with each shape are its exact symmetry counts. */
  ghost predicate ShapesExact(shapes: seq<Mask>, mirrors: seq<nat>, rotations: seq<nat>)
  {
    && |mirrors| == |shapes| && |rotations| == |shapes|
    && forall k :: 0 <= k < |shapes| ==> ExactCounts(shapes[k], mirrors[k], rotations[k])
  }

  /** The counts listed with shape `k` are exact. */
  lemma ShapesExactAt(shapes: seq<Mask>, mirrors: seq<nat>, rotations: seq<nat>, k: nat)
    requires ShapesExact(shapes, mirrors, rotations) && k < |shapes|
    ensures ExactCounts(shapes[k], mirrors[k], rotations[k])
  {
  }

  /** Every grid of `sols` is a solution from `g` with the last `c` pieces to place. */
  ghost predicate Sound(g: Grid, sols: seq<Grid>, shapes: seq<Mask>, c: nat)
    requires c <= |shapes|
  {
    forall t :: t in sols ==> Tiles(g, t, shapes, c)
  }

  /** Every solution from `g` with the last `c` pieces to place is in `sols`. */
  ghost predicate FoundAll(g: Grid, sols: seq<Grid>, shapes: seq<Mask>, c: nat)
    requires c <= |shapes|
  {
    forall t :: Tiles(g, t, shapes, c) ==> t in sols
  }

  /** Every solution from `g` whose first piece is placed in orientation `m` is in `sols`. */
  ghost predicate FoundWith(g: Grid, sols: seq<Grid>, shapes: seq<Mask>, c: nat, m: Mask)
    requires 0 < c <= |shapes|
  {
    forall t :: TilesWith(g, t, shapes, c, m) ==> t in sols
  }

  /** Every solution from `g` whose first placement is mask `m` centred on (x, y) is in `sols`. */
  ghost predicate FoundAt(g: Grid, sols: seq<Grid>, shapes: seq<Mask>, c: nat, m: Mask, x: int, y: int)
    requires 0 < c <= |shapes|
  {
    forall t :: TilesAt(g, t, shapes, c, m, x, y) ==> t in sols
  }

  /** FoundAt holds for mask `m` at every position of `visited`, positions of the interior view. */
  ghost predicate FoundFrom(g: Grid, sols: seq<Grid>, shapes: seq<Mask>, c: nat, m: Mask, visited: seq<(int, int)>)
    requires 0 < c <= |shapes|
  {
    forall q :: 0 <= q < |visited| ==> FoundAt(g, sols, shapes, c, m, visited[q].0 + 2, visited[q].1 + 2)
  }

  /** FoundWith holds for every orientation of `tried`. */
  ghost predicate FoundTurns(g: Grid, sols: seq<Grid>, shapes: seq<Mask>, c: nat, tried: seq<Mask>)
    requires 0 < c <= |shapes|
  {
    forall j :: 0 <= j < |tried| ==> FoundWith(g, sols, shapes, c, tried[j])
  }

  /** FoundWith holds for every orientation in the rows of `tried`. */
  ghost predicate FoundRows(g: Grid, sols: seq<Grid>, shapes: seq<Mask>, c: nat, tried: seq<seq<Mask>>)
    requires 0 < c <= |shapes|
  {
    forall i, j :: 0 <= i < |tried| && 0 <= j < |tried[i]| ==> FoundWith(g, sols, shapes, c, tried[i][j])
  }

  /** Nothing found is sound, and nothing tried needs nothing found. */
  lemma FoundNone(g: Grid, shapes: seq<Mask>, c: nat, m: Mask)
    requires 0 < c <= |shapes|
    ensures Sound(g, [], shapes, c)
    ensures FoundFrom(g, [], shapes, c, m, []) && FoundTurns(g, [], shapes, c, []) && FoundRows(g, [], shapes, c, [])
  {
  }

  /** With no piece left the interior is the one solution of a board. */
  lemma FoundDone(g: Grid, shapes: seq<Mask>)
    requires IsBoard(g)
    ensures Sound(g, [Interior(g)], shapes, 0) && FoundAll(g, [Interior(g)], shapes, 0)
  {
  }

  /** Sound lists concatenate to a sound list. */
  lemma SoundJoin(g: Grid, prev: seq<Grid>, found: seq<Grid>, shapes: seq<Mask>, c: nat)
    requires c <= |shapes| && Sound(g, prev, shapes, c) && Sound(g, found, shapes, c)
    ensures Sound(g, prev + found, shapes, c)
  {
  }

  /** Every solution of the board after one legal placement completes a solution of the board before it. */
  lemma SoundBelow(g: Grid, g1: Grid, m: Mask, x: int, y: int, sols: seq<Grid>, shapes: seq<Mask>, c: nat)
    requires IsBoard(g) && 0 < c <= |shapes| && IsImage(m, shapes[|shapes| - c]) && Placeable(g, m, x, y)
    requires InGrid(Interior(g), x - 2, y - 2)
    requires g1 == Stamped(g, m, x, y, |shapes| - c + 1) && RegionsDivisible(Zeros(g1), PieceSize)
    requires Sound(g1, sols, shapes, c - 1)
    ensures Sound(g, sols, shapes, c)
  {
    forall t | t in sols ensures Tiles(g, t, shapes, c) {
      assert TilesAt(g, t, shapes, c, m, x, y);
    }
  }

  /** The centre of the first placement of a solution is a free position of its orientation. */
  lemma FreeHas(g: Grid, m: Mask, x: int, y: int)
    requires BoardInv(g) && InGrid(Interior(g), x - 2, y - 2) && Placeable(g, m, x, y)
    ensures (x - 2, y - 2) in FreePositions(Interior(g), m)
  {
    var bv := Interior(g);
    assert NonNegative(bv);
    FreeIsPlaceable(g, m, x - 2, y - 2);
    CorrZero(bv, m, x - 2, y - 2);
    FreePositionsSpec(bv, m);
  }

  /**
   * A solution from `g` places its first piece in an orientation that a
   * trace holding every image of the piece's shape has tried.
   */
  lemma TriedHas(g: Grid, t: Grid, shapes: seq<Mask>, c: nat, tried: seq<seq<Mask>>)
    requires 0 < c <= |shapes| && Tiles(g, t, shapes, c)
    requires forall y :: IsImage(y, shapes[|shapes| - c]) ==> Tried(tried, y)
    ensures exists i, j :: 0 <= i < |tried| && 0 <= j < |tried[i]| && TilesWith(g, t, shapes, c, tried[i][j])
  {
    var m, x, y :| IsImage(m, shapes[|shapes| - c]) && TilesAt(g, t, shapes, c, m, x, y);
    assert Tried(tried, m);
    var i, j :| 0 <= i < |tried| && 0 <= j < |tried[i]| && tried[i][j] == m;
    assert TilesWith(g, t, shapes, c, tried[i][j]);
  }

  /** Loop step of TryOrientation: the position just tried joins those whose solutions are found. */
  lemma FoundFromNext(g: Grid, prev: seq<Grid>, found: seq<Grid>, shapes: seq<Mask>, c: nat, m: Mask,
                      visited: seq<(int, int)>, pos: (int, int))
    requires 0 < c <= |shapes|
    requires FoundFrom(g, prev, shapes, c, m, visited) && FoundAt(g, found, shapes, c, m, pos.0 + 2, pos.1 + 2)
    ensures FoundFrom(g, prev + found, shapes, c, m, visited + [pos])
  {
    hide TilesAt;
    var next := visited + [pos];
    forall q | 0 <= q < |next| ensures FoundAt(g, prev + found, shapes, c, m, next[q].0 + 2, next[q].1 + 2) {
      if q < |visited| {
        assert FoundAt(g, prev, shapes, c, m, visited[q].0 + 2, visited[q].1 + 2);
      }
    }
  }

  /** Loop step of TryTurns: the orientation just tried joins those whose solutions are found. */
  lemma FoundTurnsNext(g: Grid, prev: seq<Grid>, found: seq<Grid>, shapes: seq<Mask>, c: nat, tried: seq<Mask>, cur: Mask)
    requires 0 < c <= |shapes|
    requires FoundTurns(g, prev, shapes, c, tried) && FoundWith(g, found, shapes, c, cur)
    ensures FoundTurns(g, prev + found, shapes, c, tried + [cur])
  {
    var next := tried + [cur];
    forall j | 0 <= j < |next| ensures FoundWith(g, prev + found, shapes, c, next[j]) {
      if j < |tried| {
        assert FoundWith(g, prev, shapes, c, tried[j]);
      }
    }
  }

  /** Loop step of TileBoard: the mirror iteration just done joins those whose solutions are found. */
  lemma FoundRowsNext(g: Grid, prev: seq<Grid>, found: seq<Grid>, shapes: seq<Mask>, c: nat,
                      tried: seq<seq<Mask>>, turns: seq<Mask>)
    requires 0 < c <= |shapes|
    requires FoundRows(g, prev, shapes, c, tried) && FoundTurns(g, found, shapes, c, turns)
    ensures FoundRows(g, prev + found, shapes, c, tried + [turns])
  {
    var next := tried + [turns];
    forall i, j | 0 <= i < |next| && 0 <= j < |next[i]| ensures FoundWith(g, prev + found, shapes, c, next[i][j]) {
      if i < |tried| {
        assert FoundWith(g, prev, shapes, c, tried[i][j]);
      } else {
        assert next[i] == turns;
        assert FoundWith(g, found, shapes, c, turns[j]);
      }
    }
  }

  /** A free position listed by `np.where` is inside the interior view and free. */
  lemma FreeAtIndex(g: Grid, m: Mask, k: nat)
    requires IsBoard(g) && k < |FreePositions(Interior(g), m)|
    ensures var q := FreePositions(Interior(g), m)[k];
      InGrid(Interior(g), q.0, q.1) && Corr(Interior(g), m, q.0, q.1) == 0
  {
    FreePositionsSpec(Interior(g), m);
  }

  /**
   * Below a placement: the solutions of the stamped board are the solutions
   * through that placement, and a failed region test leaves none.
   */
  lemma FoundAtBelow(g: Grid, g1: Grid, sols: seq<Grid>, shapes: seq<Mask>, c: nat, m: Mask, x: int, y: int)
    requires 0 < c <= |shapes| && g1 == Stamped(g, m, x, y, |shapes| - c + 1)
    requires RegionsDivisible(Zeros(g1), PieceSize) ==> FoundAll(g1, sols, shapes, c - 1)
    ensures FoundAt(g, sols, shapes, c, m, x, y)
  {
  }

  /** Having tried every free position of `m` finds every solution placing `m` first. */
  lemma FoundWithFree(g: Grid, sols: seq<Grid>, shapes: seq<Mask>, c: nat, m: Mask)
    requires BoardInv(g) && 0 < c <= |shapes|
    requires FoundFrom(g, sols, shapes, c, m, FreePositions(Interior(g), m))
    ensures FoundWith(g, sols, shapes, c, m)
  {
    hide Tiles, RegionsDivisible, Stamped, Placeable, Zeros, FreePositions, Interior;
    var free := FreePositions(Interior(g), m);
    forall t | TilesWith(g, t, shapes, c, m) ensures t in sols {
      var x, y :| TilesAt(g, t, shapes, c, m, x, y);
      FreeHas(g, m, x, y);
      var q :| 0 <= q < |free| && free[q] == (x - 2, y - 2);
      assert FoundAt(g, sols, shapes, c, m, free[q].0 + 2, free[q].1 + 2);
    }
  }

  /** Having tried every image of the active shape finds every solution. */
  lemma FoundAllTried(g: Grid, sols: seq<Grid>, shapes: seq<Mask>, c: nat, tried: seq<seq<Mask>>)
    requires 0 < c <= |shapes|
    requires forall y :: IsImage(y, shapes[|shapes| - c]) ==> Tried(tried, y)
    requires FoundRows(g, sols, shapes, c, tried)
    ensures FoundAll(g, sols, shapes, c)
  {
    forall t | Tiles(g, t, shapes, c) ensures t in sols {
      TriedHas(g, t, shapes, c, tried);
      var i, j :| 0 <= i < |tried| && 0 <= j < |tried[i]| && TilesWith(g, t, shapes, c, tried[i][j]);
      assert FoundWith(g, sols, shapes, c, tried[i][j]);
    }
  }

  /** The prefix of length k + 1 extends the prefix of length k by entry k. */
  lemma PrefixNext<T>(s: seq<T>, k: nat)
    requires k < |s|
    ensures s[..k] + [s[k]] == s[..k + 1]
  {
  }

  /**
   * The first placement of a solution is followed by a passing region test,
   * so a board with a solution for at least one piece has a number of empty
   * cells divisible by the piece size.
   */
  lemma TilesArea(g: Grid, s: Grid, shapes: seq<Mask>, c: nat)
    requires 0 < c <= |shapes| && Ones(shapes[|shapes| - c]) == PieceSize
    requires Tiles(g, s, shapes, c)
    ensures |Zeros(g)| % PieceSize == 0
  {
    var code := |shapes| - c + 1;
    var m, x, y :| IsImage(m, shapes[|shapes| - c]) && TilesAt(g, s, shapes, c, m, x, y);
    var rest := Zeros(Stamped(g, m, x, y, code));
    ImageOnes(m, shapes[|shapes| - c]);
    PlaceableZeros(g, m, x, y, code);
    RegionsDivisibleTotal(rest, PieceSize);
    OnePieceMore(|rest|, |Zeros(g)|);
  }

  lemma OnePieceMore(a: nat, b: nat)
    requires a % PieceSize == 0 && b == a + PieceSize
    ensures b % PieceSize == 0
  {
  }

  /**
   * The list after the mirror at the end of a mirror iteration of the
   * active entry `a`: still images of the shapes, and entries before `a` as
   * they were.
   */
  lemma FlipStepFacts(earlier: seq<Mask>, turned: seq<Mask>, shapes: seq<Mask>, n: nat, c: nat, a: nat)
    requires |turned| == n && |shapes| == n && 0 < c <= n && a == n - c
    requires ImagesBelow(turned, shapes, n)
    requires KeepsFirst(earlier, turned, c)
    ensures ImagesBelow(turned[a := Flip(turned[a])], shapes, n)
    ensures KeepsFirst(earlier, turned[a := Flip(turned[a])], c)
  {
    ImagesFlip(turned, shapes, n, a);
    KeepsFirstUpdate(earlier, turned, c, Flip(turned[a]));
  }

  /**
   * psolver.py:111-167.  At depth `c` the active piece is entry `a = |p| - c`
   * with code `a + 1`.  With no piece left the interior is a solution: the
   * call records it and stops the whole search unless all solutions are
   * wanted.  Otherwise every mirror iteration tries each of `rotations`
   * orientations and turns the mask after each (also after the `continue`
   * taken when an orientation has no free position), then mirrors it.
   *
   * A call that does not stop leaves the board exactly as it found it and
   * the active piece's mask turned and mirrored as `Cycled` says; in
   * single-solution mode it found nothing.  A call that stops found exactly
   * one solution, which the board still holds.  Every solution is a tiling
   * the search can reach, and earlier entries of the list are not touched.
   * The ghost `tried` records the orientations tried, one row per mirror
   * iteration.
   */
  method TileBoard(p: PieceList, b: array2<int>, c: nat, solveAll: bool, ghost shapes: seq<Mask>)
    returns (stop: bool, sols: seq<Grid>, ghost tried: seq<seq<Mask>>)
    requires p.Valid() && c <= p.size && |shapes| == p.size && ImagesBelow(p.masks, shapes, p.size)
    requires BoardInv(Contents(b)) && ShapesExact(shapes, p.mirrors, p.rotations)
    modifies b, p
    decreases c, 4
    ensures p.Valid() && ImagesBelow(p.masks, shapes, p.size)
    ensures KeepsFirst(old(p.masks), p.masks, c)
    ensures c > 0 && !stop ==> var a := p.size - c;
      p.masks[a] == Cycled(old(p.masks[a]), p.rotations[a], p.mirrors[a])
    ensures c > 0 && !stop ==> var a := p.size - c;
      tried == Activation(old(p.masks[a]), p.rotations[a], p.mirrors[a])
    ensures c > 0 && !stop ==> forall y :: IsImage(y, shapes[p.size - c]) ==> Tried(tried, y)
    ensures !stop ==> FoundAll(old(Contents(b)), sols, shapes, c)
    ensures !stop ==> Contents(b) == old(Contents(b))
    ensures stop ==> !solveAll && |sols| == 1 && IsBoard(Contents(b)) && sols[0] == Interior(Contents(b))
    ensures !solveAll && !stop ==> sols == []
    ensures Sound(old(Contents(b)), sols, shapes, c)
  {
    hide Sound, FoundAll, FoundWith, FoundAt, FoundFrom, FoundTurns, FoundRows, ShapesExact, ExactCounts, Tried, IsImage, ImagesBelow;
    tried := [];
    if c == 0 {
      sols := [Interior(Contents(b))];
      stop := !solveAll;
      FoundDone(Contents(b), shapes);
      return;
    }
    var a := p.size - c;
    ghost var g0 := Contents(b);
    ghost var m0 := p.masks[a];
    ghost var earlier := p.masks;
    stop, sols := false, [];
    FoundNone(g0, shapes, c, m0);
    var i := 0;
    while i < p.mirrors[a]
      invariant i <= p.mirrors[a]
      invariant p.Valid() && ImagesBelow(p.masks, shapes, p.size)
      invariant KeepsFirst(earlier, p.masks, c)
      invariant p.masks[a] == Cycled(m0, p.rotations[a], i)
      invariant tried == Activation(m0, p.rotations[a], i)
      invariant Contents(b) == g0
      invariant !solveAll ==> sols == []
      invariant Sound(g0, sols, shapes, c) && FoundRows(g0, sols, shapes, c, tried)
    {
      ghost var before := p.masks;
      ghost var turns;
      var found;
      stop, found, turns := TryTurns(p, b, c, solveAll, shapes);
      assert !solveAll ==> sols + found == found;
      ghost var prev := sols;
      SoundJoin(g0, prev, found, shapes, c);
      sols := sols + found;
      if stop {
        return;
      }
      FoundRowsNext(g0, prev, found, shapes, c, tried, turns);
      KeepsFirstTrans(earlier, before, p.masks, c);
      CycledStep(before[a], p.masks[a], m0, p.rotations[a], i);
      tried := tried + [turns];
      i := i + 1;
    }
    ImagesBelowAt(earlier, shapes, p.size, a);
    ShapesExactAt(shapes, p.mirrors, p.rotations, a);
    ActivationFromImage(m0, shapes[a], p.mirrors[a], p.rotations[a]);
    FoundAllTried(g0, sols, shapes, c, tried);
  }

  /**
   * psolver.py:133-166: one mirror iteration.  Each of the `rotations`
   * orientations is tried and the mask is turned a quarter after each; then
   * the mask is mirrored, so that a call that does not stop leaves the
   * active mask turned `rotations` times and mirrored.  The ghost `tried`
   * records the orientations tried, in order.
   */
  method TryTurns(p: PieceList, b: array2<int>, c: nat, solveAll: bool, ghost shapes: seq<Mask>)
    returns (stop: bool, sols: seq<Grid>, ghost tried: seq<Mask>)
    requires p.Valid() && 0 < c <= p.size && |shapes| == p.size && ImagesBelow(p.masks, shapes, p.size)
    requires BoardInv(Contents(b)) && ShapesExact(shapes, p.mirrors, p.rotations)
    modifies b, p
    decreases c, 3
    ensures p.Valid() && ImagesBelow(p.masks, shapes, p.size)
    ensures KeepsFirst(old(p.masks), p.masks, c)
    ensures !stop ==> var a := p.size - c; p.masks[a] == Flip(RotN(old(p.masks[a]), p.rotations[a]))
    ensures !stop ==> var a := p.size - c; tried == Turns(old(p.masks[a]), p.rotations[a])
    ensures !stop ==> FoundTurns(old(Contents(b)), sols, shapes, c, tried)
    ensures !stop ==> Contents(b) == old(Contents(b))
    ensures stop ==> !solveAll && |sols| == 1 && IsBoard(Contents(b)) && sols[0] == Interior(Contents(b))
    ensures !solveAll && !stop ==> sols == []
    ensures Sound(old(Contents(b)), sols, shapes, c)
  {
    hide Sound, FoundAll, FoundWith, FoundAt, FoundFrom, FoundTurns, FoundRows, ShapesExact, ExactCounts, Tried, IsImage, ImagesBelow;
    var a := p.size - c;
    ghost var g0 := Contents(b);
    ghost var x := p.masks[a];
    ghost var earlier := p.masks;
    stop, sols, tried := false, [], [];
    FoundNone(g0, shapes, c, x);
    var j := 0;
    while j < p.rotations[a]
      invariant j <= p.rotations[a]
      invariant p.Valid() && ImagesBelow(p.masks, shapes, p.size)
      invariant KeepsFirst(earlier, p.masks, c)
      invariant p.masks[a] == RotN(x, j)
      invariant tried == Turns(x, j)
      invariant Contents(b) == g0
      invariant !solveAll ==> sols == []
      invariant Sound(g0, sols, shapes, c) && FoundTurns(g0, sols, shapes, c, tried)
    {
      ghost var before := p.masks;
      ghost var visited;
      var found;
      stop, found, visited := TryTurn(p, b, c, solveAll, shapes);
      assert !solveAll ==> sols + found == found;
      ghost var prev := sols;
      SoundJoin(g0, prev, found, shapes, c);
      sols := sols + found;
      KeepsFirstTrans(earlier, before, p.masks, c);
      if stop {
        return;
      }
      FoundTurnsNext(g0, prev, found, shapes, c, tried, before[a]);
      tried := tried + [before[a]];
      RotNNext(x, j);
      j := j + 1;
    }
    FlipStepFacts(earlier, p.masks, shapes, p.size, c, a);
    p.Mirror(a);
  }

  /**
   * psolver.py:134-164: one rotation iteration.  The current orientation of
   * the active mask is tried at its free positions; then, unless the search
   * stopped, the mask is turned a quarter.
   */
  method TryTurn(p: PieceList, b: array2<int>, c: nat, solveAll: bool, ghost shapes: seq<Mask>)
    returns (stop: bool, sols: seq<Grid>, ghost visited: seq<(int, int)>)
    requires p.Valid() && 0 < c <= p.size && |shapes| == p.size && ImagesBelow(p.masks, shapes, p.size)
    requires BoardInv(Contents(b)) && ShapesExact(shapes, p.mirrors, p.rotations)
    modifies b, p
    decreases c, 2
    ensures p.Valid() && ImagesBelow(p.masks, shapes, p.size)
    ensures KeepsFirst(old(p.masks), p.masks, c)
    ensures !stop ==> var a := p.size - c; p.masks[a] == Rot90(old(p.masks[a]))
    ensures visited <= FreePositions(Interior(old(Contents(b))), old(p.masks[p.size - c]))
    ensures !stop ==> visited == FreePositions(Interior(old(Contents(b))), old(p.masks[p.size - c]))
    ensures !stop ==> FoundWith(old(Contents(b)), sols, shapes, c, old(p.masks[p.size - c]))
    ensures !stop ==> Contents(b) == old(Contents(b))
    ensures stop ==> !solveAll && |sols| == 1 && IsBoard(Contents(b)) && sols[0] == Interior(Contents(b))
    ensures !solveAll && !stop ==> sols == []
    ensures Sound(old(Contents(b)), sols, shapes, c)
  {
    hide Sound, FoundAll, FoundWith, FoundAt, FoundFrom, FoundTurns, FoundRows, ShapesExact, ExactCounts, Tried, IsImage, ImagesBelow;
    var a := p.size - c;
    ghost var before := p.masks;
    stop, sols, visited := TryOrientation(p, b, c, solveAll, shapes);
    KeepsFirstSplit(before, p.masks, c);
    if stop {
      return;
    }
    ImagesRot90(p.masks, shapes, p.size, a);
    KeepsFirstUpdate(before, p.masks, c, Rot90(p.masks[a]));
    p.Rotate(a);
  }

  /**
   * psolver.py:133-160: one orientation of the active piece.  The free
   * positions of its current mask are listed in row-major order and tried
   * one after the other; a stop from below ends the loop at once.  With no
   * free position nothing is tried.  The ghost `visited` lists the positions
   * tried, a prefix of the free ones and all of them unless stopped.
   */
  method TryOrientation(p: PieceList, b: array2<int>, c: nat, solveAll: bool, ghost shapes: seq<Mask>)
    returns (stop: bool, sols: seq<Grid>, ghost visited: seq<(int, int)>)
    requires p.Valid() && 0 < c <= p.size && |shapes| == p.size && ImagesBelow(p.masks, shapes, p.size)
    requires BoardInv(Contents(b)) && ShapesExact(shapes, p.mirrors, p.rotations)
    modifies b, p
    decreases c, 1
    ensures p.Valid() && ImagesBelow(p.masks, shapes, p.size)
    ensures KeepsFirst(old(p.masks), p.masks, c - 1)
    ensures visited <= FreePositions(Interior(old(Contents(b))), old(p.masks[p.size - c]))
    ensures !stop ==> visited == FreePositions(Interior(old(Contents(b))), old(p.masks[p.size - c]))
    ensures !stop ==> Contents(b) == old(Contents(b))
    ensures stop ==> !solveAll && |sols| == 1 && IsBoard(Contents(b)) && sols[0] == Interior(Contents(b))
    ensures !solveAll && !stop ==> sols == []
    ensures Sound(old(Contents(b)), sols, shapes, c)
    ensures !stop ==> FoundWith(old(Contents(b)), sols, shapes, c, old(p.masks[p.size - c]))
  {
    hide Sound, FoundAll, FoundWith, FoundAt, FoundFrom, FoundTurns, FoundRows, ShapesExact, ExactCounts, Tried;
    var m := p.masks[p.size - c];
    var free := FreePositions(Interior(Contents(b)), m);
    ghost var g0 := Contents(b);
    ghost var kept := p.masks;
    ImagesBelowAt(p.masks, shapes, p.size, p.size - c);
    stop, sols, visited := false, [], [];
    FoundNone(g0, shapes, c, m);
    for k := 0 to |free|
      invariant !stop && visited == free[..k]
      invariant p.Valid() && ImagesBelow(p.masks, shapes, p.size)
      invariant KeepsFirst(kept, p.masks, c - 1)
      invariant Contents(b) == g0
      invariant !solveAll ==> sols == []
      invariant Sound(g0, sols, shapes, c) && FoundFrom(g0, sols, shapes, c, m, visited)
    {
      KeepsFirstSplit(kept, p.masks, c);
      ghost var descended;
      var found;
      ghost var before := visited;
      PrefixNext(free, k);
      visited := visited + [free[k]];
      FreeAtIndex(g0, m, k);
      stop, found, descended := TryPosition(p, b, c, solveAll, shapes, m, free[k].0, free[k].1);
      assert !solveAll ==> sols + found == found;
      ghost var prev := sols;
      SoundJoin(g0, prev, found, shapes, c);
      sols := sols + found;
      if stop {
        return;
      }
      FoundFromNext(g0, prev, found, shapes, c, m, before, free[k]);
    }
    assert visited == free;
    FoundWithFree(g0, sols, shapes, c, m);
  }

  /**
   * psolver.py:148-160: one trial.  The mask `m` of the active piece is
   * centred on board cell (r + 2, s + 2) for the free position (r, s) of the
   * interior view; only when the region test passes does the search go one
   * level deeper (the ghost `descended` records whether it did); then the
   * piece is removed by writing 0 under the same cells, unless the level
   * below stopped the search.
   */
  method TryPosition(p: PieceList, b: array2<int>, c: nat, solveAll: bool, ghost shapes: seq<Mask>,
                     m: Mask, r: int, s: int)
    returns (stop: bool, sols: seq<Grid>, ghost descended: bool)
    requires p.Valid() && 0 < c <= p.size && |shapes| == p.size && ImagesBelow(p.masks, shapes, p.size)
    requires m == p.masks[p.size - c] && IsImage(m, shapes[p.size - c])
    requires BoardInv(Contents(b)) && ShapesExact(shapes, p.mirrors, p.rotations)
    requires InGrid(Interior(Contents(b)), r, s) && Corr(Interior(Contents(b)), m, r, s) == 0
    modifies b, p
    decreases c, 0
    ensures p.Valid() && ImagesBelow(p.masks, shapes, p.size)
    ensures KeepsFirst(old(p.masks), p.masks, c - 1)
    ensures descended <==> RegionsDivisible(Zeros(Stamped(old(Contents(b)), m, r + 2, s + 2, p.size - c + 1)), PieceSize)
    ensures !descended ==> !stop && sols == []
    ensures !stop ==> Contents(b) == old(Contents(b))
    ensures stop ==> !solveAll && |sols| == 1 && IsBoard(Contents(b)) && sols[0] == Interior(Contents(b))
    ensures !solveAll && !stop ==> sols == []
    ensures Sound(old(Contents(b)), sols, shapes, c)
    ensures !stop ==> FoundAt(old(Contents(b)), sols, shapes, c, m, r + 2, s + 2)
  {
    hide Sound, FoundAll, FoundWith, FoundAt, FoundFrom, FoundTurns, FoundRows, ShapesExact, ExactCounts, Tried;
    var code := p.size - c + 1;
    var ioff, joff := r + 2, s + 2;
    ghost var g0 := Contents(b);
    ghost var kept := p.masks;
    assert code == |shapes| - c + 1 && IsImage(m, shapes[|shapes| - c]);
    PlaceFree(g0, m, r, s, code);
    var ok := PlaceAndTest(b, m, ioff, joff, code);
    ghost var g1 := Contents(b);
    assert p.masks == kept;
    stop, sols, descended := false, [], ok;
    FoundNone(g0, shapes, c, m);
    assert g1 == Stamped(g0, m, ioff, joff, |shapes| - c + 1);
    if ok {
      assert RegionsDivisible(Zeros(g1), PieceSize);
      ghost var below;
      stop, sols, below := TileBoard(p, b, c - 1, solveAll, shapes);
      SoundBelow(g0, g1, m, ioff, joff, sols, shapes, c);
      if stop {
        return;
      }
    }
    FoundAtBelow(g0, g1, sols, shapes, c, m, ioff, joff);
    ghost var turned := p.masks;
    Stamp(b, m, ioff, joff, 0);
    assert p.masks == turned;
    UnstampStamped(g0, m, ioff, joff, code);
  }

  /**
   * psolver.py:151-155: the piece's code is written under its 1-cells and
   * the region test runs on the board that results, which it leaves as it
   * found it.
   */
  method PlaceAndTest(b: array2<int>, m: Mask, ioff: int, joff: int, code: int) returns (ok: bool)
    requires BoardInv(Contents(b)) && code > 0
    requires WindowFits(Contents(b), m, ioff, joff) && BoardInv(Stamped(Contents(b), m, ioff, joff, code))
    modifies b
    ensures Contents(b) == Stamped(old(Contents(b)), m, ioff, joff, code)
    ensures BoardInv(Contents(b))
    ensures ok <==> RegionsDivisible(Zeros(Contents(b)), PieceSize)
  {
    ghost var h := Stamped(Contents(b), m, ioff, joff, code);
    Stamp(b, m, ioff, joff, code);
    ok := ValidSpace(b);
    ResetUnmarked(h);
  }

  /**
   * A free position (r, s) of the interior view is a placement at board
   * cell (r + 2, s + 2) whose bounding box fits the board; placing a
   * positive code there keeps the board invariant.
   */
  lemma PlaceFree(g: Grid, m: Mask, r: int, s: int, code: int)
    requires BoardInv(g) && code > 0
    requires InGrid(Interior(g), r, s) && Corr(Interior(g), m, r, s) == 0
    ensures Placeable(g, m, r + 2, s + 2)
    ensures WindowFits(g, m, r + 2, s + 2) && CoversEmpty(g, m, r + 2, s + 2)
    ensures BoardInv(Stamped(g, m, r + 2, s + 2, code))
  {
    hide Stamped, Corr;
    var bv := Interior(g);
    assert NonNegative(bv) && 0 <= r < |g| - 4 && 0 <= s < |g[0]| - 4;
    CorrZero(bv, m, r, s);
    FreeIsPlaceable(g, m, r, s);
    PlaceableStamp(g, m, r + 2, s + 2);
    StampedKeeps(g, m, r + 2, s + 2, code, 2);
  }

  /** The catalog shapes of the chosen ids, in order (psolver.py:201). */
  function ShapesOf(ids: seq<int>): (shapes: seq<Mask>)
    requires forall k :: 0 <= k < |ids| ==> 1 <= ids[k] <= |Pentominoes|
    ensures |shapes| == |ids|
    ensures forall k :: 0 <= k < |ids| ==> shapes[k] == Pentominoes[ids[k] - 1].mask
  {
    seq(|ids|, k requires 0 <= k < |ids| => Pentomino(ids[k]).mask)
  }

  /** A fresh board meets the board invariant. */
  lemma EmptyBoardInv(rows: nat, cols: nat)
    ensures BoardInv(EmptyBoard(rows, cols))
  {
    EmptyBoardShape(rows, cols);
  }

  /**
   * psolver.py:201-217: one fresh piece per chosen id, the framed empty
   * board, and the search from the top piece.  Every solution returned is a
   * tiling of the empty rows x cols board the search can reach with the
   * chosen pieces placed in list order with codes 1, 2, ...; in
   * single-solution mode there is at most one.  The ghost `tried` traces the
   * orientations tried for the first piece.
   */
  method Solve(rows: nat, cols: nat, ids: seq<int>, solveAll: bool) returns (sols: seq<Grid>, ghost tried: seq<seq<Mask>>)
    requires forall k :: 0 <= k < |ids| ==> 1 <= ids[k] <= |Pentominoes|
    ensures forall s :: s in sols ==> Tiles(EmptyBoard(rows, cols), s, ShapesOf(ids), |ids|)
    ensures !solveAll ==> |sols| <= 1
    ensures solveAll && |ids| > 0 ==> tried == Activation(ShapesOf(ids)[0], Pentomino(ids[0]).rotations, Pentomino(ids[0]).mirrors)
    ensures solveAll ==> forall s :: Tiles(EmptyBoard(rows, cols), s, ShapesOf(ids), |ids|) ==> s in sols
    ensures sols == [] ==> forall s :: !Tiles(EmptyBoard(rows, cols), s, ShapesOf(ids), |ids|)
  {
    var p := new PieceList(seq(|ids|, k requires 0 <= k < |ids| => Pentomino(ids[k])));
    ghost var shapes := ShapesOf(ids);
    assert p.masks == shapes;
    ImagesBelowSelf(shapes, |ids|);
    var b := NewBoard(rows, cols);
    EmptyBoardInv(rows, cols);
    forall k | 0 <= k < |ids| ensures ExactCounts(shapes[k], p.mirrors[k], p.rotations[k]) {
      CatalogEntry(ids[k]);
    }
    var stop;
    stop, sols, tried := TileBoard(p, b, |ids|, solveAll, shapes);
  }

  /**
   * An empty rows x cols board has a solution with at least one piece only
   * when its area is a multiple of the piece size.
   */
  lemma SolvableArea(rows: nat, cols: nat, s: Grid, ids: seq<int>)
    requires forall k :: 0 <= k < |ids| ==> 1 <= ids[k] <= |Pentominoes|
    requires |ids| > 0 && Tiles(EmptyBoard(rows, cols), s, ShapesOf(ids), |ids|)
    ensures (rows * cols) % PieceSize == 0
  {
    CatalogEntry(ids[0]);
    TilesArea(EmptyBoard(rows, cols), s, ShapesOf(ids), |ids|);
    EmptyBoardZeros(rows, cols);
  }

  /**
   * A call of `tile_board` for level `a` that does not stop tries, whatever
   * orientation the piece's mask was left in, every orientation of the
   * piece's catalog shape, nothing else, and none of them twice.
   */
  lemma LevelTrials(ids: seq<int>, masks: seq<Mask>, a: nat, tried: seq<seq<Mask>>)
    requires forall k :: 0 <= k < |ids| ==> 1 <= ids[k] <= |Pentominoes|
    requires |masks| == |ids| && a < |ids| && ImagesBelow(masks, ShapesOf(ids), |ids|)
    requires tried == Activation(masks[a], Pentomino(ids[a]).rotations, Pentomino(ids[a]).mirrors)
    ensures forall y :: IsImage(y, ShapesOf(ids)[a]) ==> Tried(tried, y)
    ensures forall i, j :: 0 <= i < |tried| && 0 <= j < |tried[i]| ==> IsImage(tried[i][j], ShapesOf(ids)[a])
    ensures forall i, j, i', j' ::
              0 <= i < |tried| && 0 <= j < |tried[i]| && 0 <= i' < |tried| && 0 <= j' < |tried[i']| && (i, j) != (i', j')
              ==> tried[i][j] != tried[i'][j']
  {
    ImagesBelowAt(masks, ShapesOf(ids), |ids|, a);
    PieceActivation(masks[a], ids[a]);
  }

  /**
   * A call of `tile_board` for level `a` that does not stop leaves the
   * piece's mask as it found it when the shape has two mirror images, and
   * mirrored when it has one.
   */
  lemma LevelEnd(ids: seq<int>, masks: seq<Mask>, a: nat)
    requires forall k :: 0 <= k < |ids| ==> 1 <= ids[k] <= |Pentominoes|
    requires |masks| == |ids| && a < |ids| && ImagesBelow(masks, ShapesOf(ids), |ids|)
    ensures var e := Pentomino(ids[a]);
      Cycled(masks[a], e.rotations, e.mirrors) == if e.mirrors == 2 then masks[a] else Flip(masks[a])
  {
    ImagesBelowAt(masks, ShapesOf(ids), |ids|, a);
    PieceExact(masks[a], ids[a]);
    ActivationEnd(masks[a], Pentomino(ids[a]).mirrors, Pentomino(ids[a]).rotations);
  }
}

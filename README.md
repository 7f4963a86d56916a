# Pentomino solver: a verified model of the placement search

`psolver.py` tiles a rectangular board with a chosen list of pentominoes by
backtracking. The board is a numpy array framed by two layers of `1` cells.
For the piece whose turn it is, the search tries each mirror image and each
quarter turn of the piece's mask, and finds the free positions of that
orientation with a 2-D convolution. At each free position it places the
piece, rejects the board when a flood fill finds an empty region whose size
is not a multiple of 5, and otherwise recurses on the next piece. It then
removes the piece again. The piece masks are turned and mirrored in place
as the loops go.

This project models that core in Dafny and proves it correct:

| file | models |
|---|---|
| `Masks.dfy` | `np.rot90`, `np.flip(axis=1)`, the mask state after each mirror iteration, and the symmetry algebra behind the catalog's counts |
| `Catalog.dfy` | the twelve catalog entries (mask, mirror images, rotations), checked shape by shape to be exact symmetry counts |
| `Grids.dfy` | the board as a grid value: marking visited cells, resetting them, stamping a piece, the interior view, the fresh board |
| `Regions.dfy` | 4-connected regions of a set of cells, which is what the flood fill visits |
| `Fill.dfy` | the flood fill's invariant and the region scan's invariant, stated on values |
| `Board.dfy` | the board array and the operations that change it in place: `NewBoard`, `Stamp`, `MarkVisited`, `ResetVisited`, `FloodFill` (`flood_fill`) and `ValidSpace` (`valid_space`) |
| `Correlation.dfy` | `convolve2d(bv, mask[::-1, ::-1], 'same', fillvalue=1)` as a centred correlation, and `np.where(C == 0)` |
| `Placement.dfy` | a free position of the interior view as a placement on the framed board |
| `Search.dfy` | the piece list as a class whose masks are updated in place, `tile_board` as five mutually recursive methods (one per loop level), and the set-up of the board and the pieces |

The main results:

- **The flood fill.** `FloodFill` marks exactly the 4-connected empty region
  of its start cell and returns the count plus that region's size.
- **The region test.** `ValidSpace` answers true exactly when every empty
  region of the board has a size divisible by 5. On both exits it leaves the
  board as it found it, with every visited marker turned back into `0`.
- **The placement test.** A zero of the correlation is exactly a position
  whose 1-cells all fall on empty interior cells. The listed positions are
  in row-major order, each once.
- **Soundness.** Every solution `TileBoard` and `Solve` return is a tiling
  the search can reach. Each piece in list order is placed in one of the
  orientations of its shape on empty cells, with code `len(p) + 1 - c`. The region
  test passes after each placement, and the solution is the interior once no
  piece is left. In single-solution mode there is at most one solution.
- **The orientation loops.** Each activation of a piece tries, in a traced
  order (`Activation`), every orientation of its catalog shape, nothing else,
  and none twice. This holds whatever orientation an earlier activation left
  the mask in (`LevelTrials`, `PieceActivation`). The catalog counts are exact
  for all twelve shapes.
- **Completeness.** In all-solutions mode `Solve` returns every tiling the
  search can reach, and it returns none only when no such tiling exists.
  Each level of the recursion states which solutions it has found. A
  position finds every solution whose first piece is placed there
  (`FoundAt`). An orientation finds every solution whose first piece has
  that orientation (`FoundWith`), because it tries every free position in
  `np.where` order. An activation finds every solution (`FoundAll`),
  because every orientation of the shape appears in its trace of tried
  orientations (`ActivationFromImage`, `FoundAllTried`).
- **The region test and the area.** The test never rejects a board whose
  empty cells can be split into connected five-cell pieces
  (`PartitionDivisible`). Every orientation covers five cells, so a board
  with a solution for at least one piece has an area divisible by 5
  (`SolvableArea`).
- **Frame and mask state.** A trial that does not stop restores the board.
  The pieces before the active one are untouched. After its loops the active
  mask has been turned and mirrored as the mirror iterations say (`Cycled`).

## Model

| member | source | states |
|---|---|---|
| Masks.HalfWidth | psolver.py:143-144 | the half width of a mask is at most 2 and its side is twice it plus one, so the mask has a centre cell |
| Masks.Rot90 | psolver.py:164 | the definition of `np.rot90` on a square mask: entry (i, j) of the result is entry (j, n-1-i), a quarter turn counter-clockwise |
| Masks.Flip | psolver.py:166 | the definition of `np.flip(axis=1)`: entry (i, j) of the result is entry (i, n-1-j), each row reversed |
| Masks.RotN | psolver.py:164 | the definition of `k` successive quarter turns |
| Masks.Cycled | psolver.py:131-166 | the definition of the mask after `i` mirror iterations, each of `rotations` quarter turns and one mirror |
| Masks.RotFour | psolver.py:164 | four quarter turns give every mask back |
| Masks.FlipTwice | psolver.py:166 | mirroring twice gives every mask back |
| Masks.FlipInjective | psolver.py:166 | two masks with equal mirror images are equal |
| Masks.RotFlip | psolver.py:164-166 | a quarter turn of the mirror image is the mirror image of three quarter turns |
| Masks.RotNAdd | psolver.py:164 | `a` quarter turns and then `b` more are `a + b` quarter turns |
| Masks.RotNMod | psolver.py:132 | for a mask that `period` (1, 2 or 4) turns give back, `k` turns equal `k % period` turns |
| Masks.RotNMod4 | psolver.py:164 | `k` quarter turns equal `k % 4` quarter turns |
| Masks.RotNFlip | psolver.py:164-166 | `k` turns of the mirror image are the mirror image of `3k` turns |
| Masks.FlipRotN | psolver.py:164-166 | the mirror image of `b` turns is `3b` turns of the mirror image |
| Masks.FlipPeriod | psolver.py:11-14 | a rotation period of a mask is also one of its mirror image |
| Masks.UndoRot90 | psolver.py:164 | three more quarter turns undo one |
| Masks.Rot90Period | psolver.py:11-14 | a rotation period of a mask is also one of its quarter turn |
| Masks.Rot90Minimal | psolver.py:11-14 | a turn count that does not give a mask back does not give its quarter turn back either |
| Masks.MirrorTurnRot90 | psolver.py:11-14 | if the mirror image is the `d`-th turn, that of the quarter turn is its `(d + 2) % 4`-th turn |
| Masks.MirrorTurnUnrot90 | psolver.py:11-14 | the converse step from the quarter turn back to the mask |
| Masks.Rot90Mirror | psolver.py:11-14 | a mask's mirror image is one of its turns exactly when that of its quarter turn is |
| Masks.ExactCountsRot90 | psolver.py:11-14 | exact mirror and rotation counts of a mask are exact for its quarter turn |
| Masks.FlipMinimal | psolver.py:11-14 | a mirror image has the same least rotation period as the mask |
| Masks.FlipTurnNotSelf | psolver.py:11-14 | when `3d` turns (reduced modulo the period) do not give the mask back, `d` turns do not give its mirror image back |
| Masks.MirrorTurnFlip | psolver.py:11-14 | if the mirror image is the `d`-th turn of the mask, the mask is the `(3d) % 4`-th turn of the mirror image |
| Masks.TurnBack | psolver.py:164 | if `x` is the `e`-th turn of `y`, then `y` is the `(4 - e) % 4`-th turn of `x` |
| Masks.MirrorTurnUnflip | psolver.py:11-14 | if the mask is a turn of its mirror image, the mirror image is the inverse turn of the mask |
| Masks.ExactCountsFlip | psolver.py:11-14 | exact counts of a mask are exact for its mirror image |
| Masks.ExactCountsTurns | psolver.py:11-14 | exact counts of a mask are exact for any number of its turns |
| Masks.ImageExact | psolver.py:11-14 | exact counts of a mask are exact for each of its eight images |
| Masks.CycledAlternates | psolver.py:131-166 | with the loop's rotation count a period, mirror iteration `i` starts from the mask when `i` is even and from its mirror image when odd |
| Masks.ActivationEnd | psolver.py:131-166 | after all the iterations a mask with exact counts is back to itself (two mirror images) or is its mirror image, one of its own turns (one mirror image) |
| Masks.OrientationIsImage | psolver.py:131-164 | the orientation tried at mirror iteration `i` and rotation iteration `j` is image (i, j): `j` turns of the mask or of its mirror image |
| Masks.TurnsDistinct | psolver.py:132 | turns below the least period are pairwise different |
| Masks.ActivationComplete | psolver.py:131-132 | with exact counts, every one of the eight images of the mask is tried at some mirror and rotation iteration |
| Masks.ActivationDistinct | psolver.py:131-132 | with exact counts, two different (mirror, rotation) iterations try different orientations |
| Masks.MirrorNotTurn | psolver.py:131-132 | when the mirror image is none of the mask's turns, no turn of the mask is a turn of the mirror image |
| Masks.IsImageIff | psolver.py:131-132 | the images of a mask are exactly the `j` turns of it or of its mirror image, `j < 4` |
| Masks.ImageSelf | psolver.py:201 | every mask is one of its own images, so a fresh piece list starts on an image of its shape |
| Masks.ImageRot90 | psolver.py:164 | a quarter turn of an image of a shape is an image of that shape |
| Masks.ImageFlip | psolver.py:166 | the mirror image of an image of a shape is an image of that shape |
| Masks.ImageTurns | psolver.py:164 | any number of quarter turns of an image of a shape is an image of that shape |
| Masks.ImageTrans | psolver.py:164-166 | an image of an image of a shape is an image of the shape |
| Masks.ImageSym | psolver.py:164-166 | a shape is an image of each of its images |
| Masks.ImageSame | psolver.py:164-166 | two masks that are images of each other have the same images, so the loops may start from any orientation |
| Masks.OnesRot90 | psolver.py:164 | a quarter turn keeps the number of 1-cells |
| Masks.OnesFlip | psolver.py:166 | so does the mirror image |
| Masks.OnesRotN | psolver.py:164 | so do any number of quarter turns |
| Masks.ImageOnes | psolver.py:131-166 | every orientation the loops try has as many 1-cells as the catalog shape, so every placement covers five cells |
| Masks.Turns | psolver.py:132-164 | the orientations one mirror iteration tries, in order: the mask turned 0, 1, ... `n - 1` times; there are `n` of them |
| Masks.Activation | psolver.py:131-164 | the orientations tried over `i` mirror iterations, one row of turns per mirror iteration; `i` rows of `rotations` entries |
| Masks.ActivationHas | psolver.py:131-132 | with exact counts, every image of the mask appears in the table of tried orientations |
| Masks.ActivationImage | psolver.py:131-164 | every entry of that table is an image of the mask |
| Masks.ActivationFromImage | psolver.py:129-166 | with exact counts for a shape, an activation starting from any image of the shape tries every image of the shape |
| Masks.ActivationEnumerates | psolver.py:131-166 | with exact counts, the table holds every image of the mask, only images of it, and no image twice |
| Catalog.Pentomino | psolver.py:201 | the entry for a piece id in 1..12 is a catalog entry |
| Catalog.TurnsX | psolver.py:16-18 | the three turns and the mirror image of X, written out |
| Catalog.PeriodX | psolver.py:16-18 | X is its own quarter turn (least period 1) |
| Catalog.MirrorX | psolver.py:16-18 | the mirror image of X is one of its turns |
| Catalog.ExactX | psolver.py:16-18 | X has five cells and its counts 1 mirror image, 1 rotation are exact |
| Catalog.TurnsV | psolver.py:20-22 | the three turns and the mirror image of V, written out |
| Catalog.PeriodV | psolver.py:20-22 | V has least rotation period 4 |
| Catalog.MirrorV | psolver.py:20-22 | the mirror image of V is one of its turns |
| Catalog.ExactV | psolver.py:20-22 | V has five cells and its counts 1, 4 are exact |
| Catalog.TurnsU | psolver.py:24-26 | the three turns and the mirror image of U, written out |
| Catalog.PeriodU | psolver.py:24-26 | U has least rotation period 4 |
| Catalog.MirrorU | psolver.py:24-26 | the mirror image of U is one of its turns |
| Catalog.ExactU | psolver.py:24-26 | U has five cells and its counts 1, 4 are exact |
| Catalog.TurnsT | psolver.py:28-30 | the three turns and the mirror image of T, written out |
| Catalog.PeriodT | psolver.py:28-30 | T has least rotation period 4 |
| Catalog.MirrorT | psolver.py:28-30 | the mirror image of T is one of its turns |
| Catalog.ExactT | psolver.py:28-30 | T has five cells and its counts 1, 4 are exact |
| Catalog.TurnsW | psolver.py:32-34 | the three turns and the mirror image of W, written out |
| Catalog.PeriodW | psolver.py:32-34 | W has least rotation period 4 |
| Catalog.MirrorW | psolver.py:32-34 | the mirror image of W is one of its turns |
| Catalog.ExactW | psolver.py:32-34 | W has five cells and its counts 1, 4 are exact |
| Catalog.TurnsZ | psolver.py:36-38 | the three turns and the mirror image of Z, written out |
| Catalog.PeriodZ | psolver.py:36-38 | Z has least rotation period 2 |
| Catalog.MirrorZ | psolver.py:36-38 | the mirror image of Z is none of its turns |
| Catalog.ExactZ | psolver.py:36-38 | Z has five cells and its counts 2, 2 are exact |
| Catalog.TurnsP | psolver.py:40-42 | the three turns and the mirror image of P, written out |
| Catalog.PeriodP | psolver.py:40-42 | P has least rotation period 4 |
| Catalog.MirrorP | psolver.py:40-42 | the mirror image of P is none of its turns |
| Catalog.ExactP | psolver.py:40-42 | P has five cells and its counts 2, 4 are exact |
| Catalog.TurnsF | psolver.py:44-46 | the three turns and the mirror image of F, written out |
| Catalog.PeriodF | psolver.py:44-46 | F has least rotation period 4 |
| Catalog.MirrorF | psolver.py:44-46 | the mirror image of F is none of its turns |
| Catalog.ExactF | psolver.py:44-46 | F has five cells and its counts 2, 4 are exact |
| Catalog.TurnsI | psolver.py:48-52 | the three turns and the mirror image of I, written out |
| Catalog.PeriodI | psolver.py:48-52 | I has least rotation period 2 |
| Catalog.MirrorI | psolver.py:48-52 | the mirror image of I is one of its turns |
| Catalog.ExactI | psolver.py:48-52 | I has five cells and its counts 1, 2 are exact |
| Catalog.TurnsL | psolver.py:54-58 | the three turns and the mirror image of L, written out |
| Catalog.PeriodL | psolver.py:54-58 | L has least rotation period 4 |
| Catalog.MirrorL | psolver.py:54-58 | the mirror image of L is none of its turns |
| Catalog.ExactL | psolver.py:54-58 | L has five cells and its counts 2, 4 are exact |
| Catalog.TurnsY | psolver.py:60-64 | the three turns and the mirror image of Y, written out |
| Catalog.PeriodY | psolver.py:60-64 | Y has least rotation period 4 |
| Catalog.MirrorY | psolver.py:60-64 | the mirror image of Y is none of its turns |
| Catalog.ExactY | psolver.py:60-64 | Y has five cells and its counts 2, 4 are exact |
| Catalog.TurnsN | psolver.py:66-70 | the three turns and the mirror image of N, written out |
| Catalog.PeriodN | psolver.py:66-70 | N has least rotation period 4 |
| Catalog.MirrorN | psolver.py:66-70 | the mirror image of N is none of its turns |
| Catalog.ExactN | psolver.py:66-70 | N has five cells and its counts 2, 4 are exact |
| Catalog.CatalogEntry | psolver.py:15-71 | every catalog entry has side 3 or 5, five 1-cells, and mirror and rotation counts equal to the exact symmetry counts of its mask |
| Catalog.PieceExact | psolver.py:129-132 | for any image of a catalog shape, the entry's counts are exact, so each activation of a piece tries each orientation once wherever its mask was left |
| Catalog.PieceActivation | psolver.py:129-166 | starting from any orientation of a catalog shape, one activation tries every orientation of that shape, nothing else, and none twice |
| Grids.MarkedNothing | psolver.py:86 | marking no cell leaves the grid as it is |
| Grids.MarkedTwice | psolver.py:86 | marking `a` and then `b` marks `a + b` |
| Grids.ZerosMarked | psolver.py:86 | marking empty cells removes exactly those from the empty cells |
| Grids.ZerosMarkedWithin | psolver.py:86 | marking keeps empty cells off the edge |
| Grids.Marked | psolver.py:86 | the definition of a grid after `b[i, j] = -1` on each cell of a set |
| Grids.Reset | psolver.py:105-107 | the definition of `b[np.where(b == -1)] = 0`: every visited marker back to 0, other cells kept |
| Grids.ResetMarkedAny | psolver.py:107 | resetting undoes any marking of empty cells |
| Grids.ResetUnmarked | psolver.py:107 | resetting a grid without markers changes nothing |
| Grids.Stamped | psolver.py:151-160 | the definition of the slice assignment `b[window][flag] = value`: each cell under a 1-cell of the centred mask gets the value, every other cell is kept |
| Grids.CoveredCard | psolver.py:151-152 | a placement covers as many cells as its mask has 1-cells |
| Grids.ZerosStamped | psolver.py:151-152 | placing a non-zero code on empty cells removes exactly that many cells from the empty ones |
| Grids.UnstampStamped | psolver.py:151-160 | writing 0 under the piece after placing it on empty cells restores the grid |
| Grids.StampedKeeps | psolver.py:151-152 | placing a positive code keeps the grid without negative cells, keeps empty cells off the edge, and only removes empty cells |
| Grids.Interior | psolver.py:127 | the view `b[2:-2, 2:-2]`: four rows and four columns fewer, cell (r, s) is board cell (r+2, s+2) |
| Grids.EmptyBoard | psolver.py:204 | the fresh board is (rows+4) x (cols+4) |
| Grids.EmptyBoardShape | psolver.py:204-208 | the fresh board has no negative cell and its empty cells are exactly the rows x cols interior |
| Grids.EmptyBoardZeros | psolver.py:204-208 | a fresh board has exactly `rows * cols` empty cells |
| Grids.EmptyBoardInterior | psolver.py:211 | the interior view of the fresh board is rows x cols zeros |
| Regions.ComponentStart | psolver.py:83-86 | a cell of the set is in its own region |
| Regions.ComponentSubset | psolver.py:78-91 | a region lies inside its set |
| Regions.ComponentHasStart | psolver.py:83-84 | only a cell of the set has a non-empty region |
| Regions.ComponentOutside | psolver.py:83-84 | the region of a cell outside the set is empty |
| Regions.ComponentStep | psolver.py:87-90 | a neighbour in the set of a region cell is in the region |
| Regions.ComponentClosed | psolver.py:87-90 | no step leads out of a region to a cell of the set |
| Regions.ComponentMono | psolver.py:87-90 | a region grows with its set |
| Regions.ComponentPrepend | psolver.py:87-90 | a neighbour's region lies in the region of the cell |
| Regions.PathInside | psolver.py:87-90 | a path from a closed subset stays in it |
| Regions.ClosedContains | psolver.py:87-90 | a closed subset holding a cell holds its whole region |
| Regions.ComponentUnique | psolver.py:78-91 | a closed subset of the region that holds the cell is the whole region |
| Regions.ReversePath | psolver.py:87-90 | a path walked backwards is a path |
| Regions.ComponentSame | psolver.py:101-104 | all cells of a region have that same region |
| Regions.ComponentAvoids | psolver.py:101-104 | removing a closed part that misses the cell leaves the cell's region as it was |
| Regions.RegionsDivisibleTotal | psolver.py:94-108 | when every empty region has a size divisible by the unit, so does the number of empty cells |
| Regions.PartitionDivisible | psolver.py:94-108 | the region test is necessary: a set made of disjoint connected parts of the unit size has every region divisible by the unit, so no coverable board is rejected |
| Fill.FillNonEmpty | psolver.py:83-84 | a fill started on an occupied or visited cell visits nothing and changes nothing |
| Fill.VisitsStart | psolver.py:85-86 | after marking the start cell the fill's invariant holds with no neighbour done |
| Fill.VisitsGrow | psolver.py:87-90 | adding the region of the next neighbour among unvisited empty cells keeps the invariant, and that region is disjoint from the visited cells |
| Fill.VisitsStep | psolver.py:87-90 | the call for the next neighbour, on the grid as the earlier calls left it, visits the unvisited part of that neighbour's region and keeps the invariant |
| Fill.VisitsEnd | psolver.py:87-91 | once all four neighbours are done the visited cells are exactly the start cell's region |
| Fill.VisitsCallable | psolver.py:87-90 | each recursive call starts on a grid with fewer empty cells, still off the edge |
| Fill.ScanFill | psolver.py:103 | a fill started during the scan finds the cell's region in the entry board when the cell is empty and unvisited, and nothing otherwise |
| Fill.ScanGrow | psolver.py:103-104 | a divisible region added to the visited cells moves the scan one cell on |
| Fill.ScanStep | psolver.py:103-106 | a count not divisible by 5 exhibits a region of that size in the entry board; a divisible one moves the scan on |
| Fill.ScanCell | psolver.py:103-106 | the same step, with the reset after an early exit giving the entry board's reset |
| Fill.ScanSkip | psolver.py:103 | a start on an occupied or visited cell moves the scan one cell on |
| Fill.ScanNextRow | psolver.py:101-102 | the scan passes from the end of one row to the start of the next |
| Fill.ScanEnd | psolver.py:107-108 | once all rows are passed, every empty region of the entry board has a size divisible by 5 |
| Board.NewBoard | psolver.py:204-208 | a fresh array holding zeros with a frame of 1s two cells wide |
| Board.Stamp | psolver.py:151-160 | every cell under a 1-cell of the centred mask gets the value, no other cell changes |
| Board.ResetVisited | psolver.py:105 | every visited marker becomes 0, no other cell changes |
| Board.MarkVisited | psolver.py:86 | exactly the one cell becomes a visited marker |
| Board.FloodFill | psolver.py:78-91 | from an empty cell, exactly its empty 4-connected region is marked and the count grows by its size; from any other cell nothing changes |
| Board.ValidSpace | psolver.py:94-108 | true exactly when every empty region has a size divisible by 5; every visited marker is reset on both exits |
| Correlation.CorrFromZero | psolver.py:135-136 | on a board without negative cells the partial correlation is non-negative and 0 exactly when the remaining 1-cells fall on empty cells |
| Correlation.CorrFrom | psolver.py:135 | the definition of the partial correlation: the sum of mask cell times board value over the mask cells from (u, v) on, reading cells outside the view as the fill value 1 |
| Correlation.Corr | psolver.py:135 | the definition of entry (r, s) of `convolve2d(bv, mask[::-1, ::-1], 'same', fillvalue=1)` as that sum over the whole mask |
| Correlation.CorrZero | psolver.py:135-136 | a correlation entry is 0 exactly when every 1-cell of the centred mask lies on an empty cell of the interior view |
| Correlation.FreePositions | psolver.py:136 | the definition of `np.where(C == 0)`: the zeros of the correlation listed row by row |
| Correlation.FreeFromPosSpec | psolver.py:136 | the positions listed from (r, s) on are exactly the cells at or after (r, s) where the correlation is 0 |
| Correlation.FreeFromPosOrdered | psolver.py:136 | those positions come in strict row-major order |
| Correlation.FreePositionsSpec | psolver.py:136 | `np.where(C == 0)` lists every zero of the correlation and nothing else, in row-major order, so each once |
| Placement.FreeIsPlaceable | psolver.py:143-152 | a free position of the interior view is, shifted by 2, a placement on empty interior board cells, and back |
| Placement.PlaceableStamp | psolver.py:143-152 | such a placement's bounding box fits the board and covers only empty cells |
| Placement.PlaceableZeros | psolver.py:151-152 | a placement takes exactly its mask's 1-cells off the empty cells of the board |
| Search.PieceList.constructor | psolver.py:201 | one entry per chosen shape, holding its mask, mirror count and rotation count |
| Search.PieceList.Rotate | psolver.py:164 | the entry's mask becomes its quarter turn; no other entry changes |
| Search.PieceList.Mirror | psolver.py:166 | the entry's mask becomes its mirror image; no other entry changes |
| Search.ImagesBelowSelf | psolver.py:201 | a fresh piece list holds each catalog shape as one of its own images |
| Search.ImagesBelowAt | psolver.py:129 | each mask in the list is an image of its shape |
| Search.ImagesBelowUpdate | psolver.py:164-166 | replacing one mask by another image of its shape keeps the invariant |
| Search.ImagesRot90 | psolver.py:164 | turning one mask keeps every mask an image of its shape |
| Search.ImagesFlip | psolver.py:166 | mirroring one mask keeps every mask an image of its shape |
| Search.Tiles | psolver.py:111-167 | the definition of a solution the search can reach from a board with `c` pieces left: an image of the active shape placed on empty interior cells with the active code, centred on an interior cell as the `'same'`-mode correlation requires, a passing region test, and a solution of the board that leaves; the interior once no piece is left |
| Search.TilesArea | psolver.py:151-156 | a board with a solution for at least one piece has a number of empty cells divisible by 5 |
| Search.FlipStepFacts | psolver.py:166 | the mirror at the end of a mirror iteration keeps every mask an image of its shape and the earlier entries as they were |
| Search.TileBoard | psolver.py:111-167 | at `c == 0` the interior is a solution and stops the search unless all are wanted. Otherwise every returned solution is reachable, and no earlier piece changes. A call that does not stop returns every solution reachable from the entry board, restores the board, leaves the active mask cycled by all mirror iterations, and has tried the orientations `Activation(mask, rotations, mirrors)` in order, among them every image of the active shape |
| Search.TryTurns | psolver.py:132-166 | one mirror iteration: the returned solutions are reachable and the board is restored unless stopped. A call that does not stop has tried the orientations `Turns(mask, rotations)` in order, has returned every solution whose first piece has one of them, and leaves the active mask turned `rotations` times and mirrored |
| Search.TryTurn | psolver.py:134-164 | one rotation iteration: the positions tried are a prefix of the free positions of the current orientation, all of them unless stopped. A call that does not stop returns every solution whose first piece has that orientation, restores the board and turns the active mask a quarter |
| Search.TryOrientation | psolver.py:133-160 | the positions tried are a prefix of `np.where(C == 0)` for the mask on the entry board, and all of it when the search does not stop. The returned solutions are reachable. A call that does not stop restores the board and returns every solution whose first piece has the active orientation |
| Search.TryPosition | psolver.py:148-160 | places the piece and goes one level deeper exactly when the region test passes on the board with the piece placed; without that, nothing is found and the search goes on. Then it removes the piece. The solutions are reachable. A call that does not stop restores the board and returns every solution whose first piece is placed at that position |
| Search.PlaceAndTest | psolver.py:151-155 | the board holds the placed piece and the answer is true exactly when every empty region is divisible by 5 |
| Search.PlaceFree | psolver.py:133-152 | a free position is a placement that fits the board, covers only empty cells and keeps the board invariant |
| Search.ShapesOf | psolver.py:201 | the catalog masks of the chosen ids, in order |
| Search.EmptyBoardInv | psolver.py:204-208 | the fresh board meets the board invariant the search needs |
| Search.Solve | psolver.py:201-217 | every returned solution is a tiling of the empty board with the chosen pieces in list order; in single-solution mode there is at most one. In all-solutions mode every such tiling is returned and the orientations tried for the first piece are `Activation` of its catalog shape. An empty result means no tiling exists, in either mode |
| Search.SoundBelow | psolver.py:148-156 | a solution of the board after a legal placement whose region test passes is a solution of the board before it |
| Search.FoundAtBelow | psolver.py:151-160 | when the region test fails no solution passes through the placement; when it passes, finding every solution of the stamped board finds every solution through the placement |
| Search.FreeHas | psolver.py:133-136 | the centre of the first placement of any solution is listed by `np.where(C == 0)` for its orientation |
| Search.FoundWithFree | psolver.py:143-160 | trying every listed free position of an orientation finds every solution with that orientation first |
| Search.TriedHas | psolver.py:131-132 | when every image of the active shape appears in the trace, the first orientation of any solution appears in it |
| Search.FoundAllTried | psolver.py:131-166 | when every image of the active shape appears in the trace, finding every solution of each traced orientation finds every solution |
| Search.SolvableArea | psolver.py:201-217 | an empty rows x cols board has a solution with at least one piece only when `rows * cols` is a multiple of 5 |
| Search.LevelTrials | psolver.py:129-166 | at any level, the orientations a non-stopping call tries are every orientation of the piece's catalog shape, nothing else, and none twice, whatever orientation the mask was left in |
| Search.LevelEnd | psolver.py:131-166 | a non-stopping call leaves the piece's mask as it found it when the shape has two mirror images, and mirrored when it has one |

## Left out

- Command-line parsing and the id check (psolver.py:170-197). `Search.Solve` takes the ids as a parameter and requires them to lie in 1..12, which is what the check at psolver.py:187-189 guarantees before the search starts.
- Printing (psolver.py:118-121, 192-197, 222-225) is left out. `exit(0)` after the first solution (psolver.py:125) becomes a stop flag that every level returns at once, and a printed solution becomes a snapshot of the interior in the returned list.
- The `int8` board (psolver.py:204): cells are unbounded integers in the model. Piece codes run from 1 to `len(p)` (psolver.py:130), and `int8` holds at most 127. With 128 or more pieces the source's assignment at psolver.py:152 wraps around or raises, depending on the numpy version. The model places no bound on the number of ids and keeps such codes exact, so it departs from the source there. With at most 127 pieces, every cell value (-1, 0, 1 or a code) fits and the two agree.
- `scipy.signal.convolve2d`: modelled as the centred correlation it computes for odd square masks with fill value 1. The general convolution is not modelled.
- Floating-point and dtype details of numpy (the masks are integer arrays).
- The recursion limit of the Python interpreter.
- The unused top-level `bv` and `pos` (psolver.py:211-214). The lemma `Grids.EmptyBoardInterior` states what `bv` would hold; nothing else uses it.
- Aliasing from repeated ids (psolver.py:201): the list comprehension shares one catalog entry between repeated ids, so turning one turns the other. The model gives every list entry its own mask.
- The four recursive calls of `flood_fill` (psolver.py:87-90) are made, in the same order, by a loop over the list of the four neighbours in `Board.FloodFill`; each iteration is one recursive call.
- Search.Tiles: a placement counts only when the centre of its mask lies in the interior, because the `'same'`-mode correlation (psolver.py:135) offers only those centres. For every catalog shape in every orientation the centre lies inside the bounding box of the mask's 1-cells, so this excludes no placement whose cells are all interior. The model does not prove that as a lemma.
- The `continue` branch for an orientation without free positions (psolver.py:138-140) turns the mask and skips the turn at psolver.py:164. The model runs the position loop zero times and then makes the same single turn, which has the same effect.

/**
 * The catalog of the twelve pentominoes (psolver.py:15-71): for each, a
 * square 0/1 mask of odd side, the number of distinct mirror images and the
 * number of distinct quarter-turn positions.  The lemmas check, shape by
 * shape, that the two counts are exact, which is what makes the search's
 * orientation loops enumerate every orientation once.
 */
module Catalog {
  import opened Masks

  /** One catalog entry: `[mask, mirror images, rotations]` in the source. */
  datatype Shape = Shape(mask: Mask, mirrors: nat, rotations: nat)

  /** Cells covered by every pentomino. */
  const PieceSize: nat := 5

  const X: Mask := [[0, 1, 0], [1, 1, 1], [0, 1, 0]]
  const V: Mask := [[1, 1, 1], [1, 0, 0], [1, 0, 0]]
  const U: Mask := [[1, 1, 0], [1, 0, 0], [1, 1, 0]]
  const T: Mask := [[1, 1, 1], [0, 1, 0], [0, 1, 0]]
  const W: Mask := [[1, 1, 0], [0, 1, 1], [0, 0, 1]]
  const Z: Mask := [[1, 1, 0], [0, 1, 0], [0, 1, 1]]
  const P: Mask := [[1, 0, 0], [1, 1, 0], [1, 1, 0]]
  const F: Mask := [[1, 1, 0], [0, 1, 1], [0, 1, 0]]
  const I: Mask := [[0, 0, 1, 0, 0], [0, 0, 1, 0, 0], [0, 0, 1, 0, 0], [0, 0, 1, 0, 0], [0, 0, 1, 0, 0]]
  const L: Mask := [[0, 0, 0, 0, 0], [0, 0, 1, 1, 0], [0, 0, 1, 0, 0], [0, 0, 1, 0, 0], [0, 0, 1, 0, 0]]
  const Y: Mask := [[0, 0, 0, 0, 0], [0, 0, 1, 0, 0], [0, 0, 1, 1, 0], [0, 0, 1, 0, 0], [0, 0, 1, 0, 0]]
  const N: Mask := [[0, 0, 0, 0, 0], [0, 0, 0, 1, 0], [0, 0, 1, 1, 0], [0, 0, 1, 0, 0], [0, 0, 1, 0, 0]]

  /** The list `pentominos`, in the source's order: ids 1 to 12 are X V U T W Z P F I L Y N. */
  const Pentominoes: seq<Shape> := [
    Shape(X, 1, 1),
    Shape(V, 1, 4),
    Shape(U, 1, 4),
    Shape(T, 1, 4),
    Shape(W, 1, 4),
    Shape(Z, 2, 2),
    Shape(P, 2, 4),
    Shape(F, 2, 4),
    Shape(I, 1, 2),
    Shape(L, 2, 4),
    Shape(Y, 2, 4),
    Shape(N, 2, 4)
  ]

  /** `pentominos[i-1]` for a piece id `i` (psolver.py:201). */
  function Pentomino(id: int): (s: Shape)
    requires 1 <= id <= |Pentominoes|
    ensures s in Pentominoes
  {
    Pentominoes[id - 1]
  }

  /** The three turns and the mirror image of X. */
  lemma TurnsX()
    ensures RotN(X, 1) == [[0, 1, 0], [1, 1, 1], [0, 1, 0]]
    ensures RotN(X, 2) == [[0, 1, 0], [1, 1, 1], [0, 1, 0]]
    ensures RotN(X, 3) == [[0, 1, 0], [1, 1, 1], [0, 1, 0]]
    ensures Flip(X) == [[0, 1, 0], [1, 1, 1], [0, 1, 0]]
  {
    assert Rot90(X) == [[0, 1, 0], [1, 1, 1], [0, 1, 0]] by {
      forall i | 0 <= i < 3 ensures Rot90(X)[i] == [[0, 1, 0], [1, 1, 1], [0, 1, 0]][i] { }
    }
    assert Rot90([[0, 1, 0], [1, 1, 1], [0, 1, 0]]) == [[0, 1, 0], [1, 1, 1], [0, 1, 0]] by {
      forall i | 0 <= i < 3 ensures Rot90([[0, 1, 0], [1, 1, 1], [0, 1, 0]])[i] == [[0, 1, 0], [1, 1, 1], [0, 1, 0]][i] { }
    }
    assert Rot90([[0, 1, 0], [1, 1, 1], [0, 1, 0]]) == [[0, 1, 0], [1, 1, 1], [0, 1, 0]] by {
      forall i | 0 <= i < 3 ensures Rot90([[0, 1, 0], [1, 1, 1], [0, 1, 0]])[i] == [[0, 1, 0], [1, 1, 1], [0, 1, 0]][i] { }
    }
    assert Flip(X) == [[0, 1, 0], [1, 1, 1], [0, 1, 0]] by {
      forall i | 0 <= i < 3 ensures Flip(X)[i] == [[0, 1, 0], [1, 1, 1], [0, 1, 0]][i] { }
    }
    assert RotN(X, 1) == Rot90(X);
    assert RotN(X, 2) == Rot90(RotN(X, 1));
    assert RotN(X, 3) == Rot90(RotN(X, 2));
  }

  lemma PeriodX()
    ensures RotN(X, 1) == X && LeastPeriod(X, 1)
  {
    TurnsX();
  }

  lemma MirrorX()
    ensures MirrorIsTurn(X)
  {
    TurnsX();
    assert Flip(X) == RotN(X, 0);
  }

  lemma ExactX()
    ensures ExactCounts(X, 1, 1) && Ones(X) == PieceSize
  {
    assert Ones(X) == PieceSize;
    PeriodX();
    MirrorX();
  }

  /** The three turns and the mirror image of V. */
  lemma TurnsV()
    ensures RotN(V, 1) == [[1, 0, 0], [1, 0, 0], [1, 1, 1]]
    ensures RotN(V, 2) == [[0, 0, 1], [0, 0, 1], [1, 1, 1]]
    ensures RotN(V, 3) == [[1, 1, 1], [0, 0, 1], [0, 0, 1]]
    ensures Flip(V) == [[1, 1, 1], [0, 0, 1], [0, 0, 1]]
  {
    assert Rot90(V) == [[1, 0, 0], [1, 0, 0], [1, 1, 1]] by {
      forall i | 0 <= i < 3 ensures Rot90(V)[i] == [[1, 0, 0], [1, 0, 0], [1, 1, 1]][i] { }
    }
    assert Rot90([[1, 0, 0], [1, 0, 0], [1, 1, 1]]) == [[0, 0, 1], [0, 0, 1], [1, 1, 1]] by {
      forall i | 0 <= i < 3 ensures Rot90([[1, 0, 0], [1, 0, 0], [1, 1, 1]])[i] == [[0, 0, 1], [0, 0, 1], [1, 1, 1]][i] { }
    }
    assert Rot90([[0, 0, 1], [0, 0, 1], [1, 1, 1]]) == [[1, 1, 1], [0, 0, 1], [0, 0, 1]] by {
      forall i | 0 <= i < 3 ensures Rot90([[0, 0, 1], [0, 0, 1], [1, 1, 1]])[i] == [[1, 1, 1], [0, 0, 1], [0, 0, 1]][i] { }
    }
    assert Flip(V) == [[1, 1, 1], [0, 0, 1], [0, 0, 1]] by {
      forall i | 0 <= i < 3 ensures Flip(V)[i] == [[1, 1, 1], [0, 0, 1], [0, 0, 1]][i] { }
    }
    assert RotN(V, 1) == Rot90(V);
    assert RotN(V, 2) == Rot90(RotN(V, 1));
    assert RotN(V, 3) == Rot90(RotN(V, 2));
  }

  lemma PeriodV()
    ensures RotN(V, 4) == V && LeastPeriod(V, 4)
  {
    TurnsV();
    RotFour(V);
    assert LeastPeriod(V, 4) by {
      forall d | 0 < d < 4 ensures RotN(V, d) != V {
        if d == 1 {
          assert RotN(V, 1)[0][1] != V[0][1];
        } else if d == 2 {
          assert RotN(V, 2)[0][0] != V[0][0];
        } else {
          assert RotN(V, 3)[1][0] != V[1][0];
        }
      }
    }
  }

  lemma MirrorV()
    ensures MirrorIsTurn(V)
  {
    TurnsV();
    assert Flip(V) == RotN(V, 3);
  }

  lemma ExactV()
    ensures ExactCounts(V, 1, 4) && Ones(V) == PieceSize
  {
    assert Ones(V) == PieceSize;
    PeriodV();
    MirrorV();
  }

  /** The three turns and the mirror image of U. */
  lemma TurnsU()
    ensures RotN(U, 1) == [[0, 0, 0], [1, 0, 1], [1, 1, 1]]
    ensures RotN(U, 2) == [[0, 1, 1], [0, 0, 1], [0, 1, 1]]
    ensures RotN(U, 3) == [[1, 1, 1], [1, 0, 1], [0, 0, 0]]
    ensures Flip(U) == [[0, 1, 1], [0, 0, 1], [0, 1, 1]]
  {
    assert Rot90(U) == [[0, 0, 0], [1, 0, 1], [1, 1, 1]] by {
      forall i | 0 <= i < 3 ensures Rot90(U)[i] == [[0, 0, 0], [1, 0, 1], [1, 1, 1]][i] { }
    }
    assert Rot90([[0, 0, 0], [1, 0, 1], [1, 1, 1]]) == [[0, 1, 1], [0, 0, 1], [0, 1, 1]] by {
      forall i | 0 <= i < 3 ensures Rot90([[0, 0, 0], [1, 0, 1], [1, 1, 1]])[i] == [[0, 1, 1], [0, 0, 1], [0, 1, 1]][i] { }
    }
    assert Rot90([[0, 1, 1], [0, 0, 1], [0, 1, 1]]) == [[1, 1, 1], [1, 0, 1], [0, 0, 0]] by {
      forall i | 0 <= i < 3 ensures Rot90([[0, 1, 1], [0, 0, 1], [0, 1, 1]])[i] == [[1, 1, 1], [1, 0, 1], [0, 0, 0]][i] { }
    }
    assert Flip(U) == [[0, 1, 1], [0, 0, 1], [0, 1, 1]] by {
      forall i | 0 <= i < 3 ensures Flip(U)[i] == [[0, 1, 1], [0, 0, 1], [0, 1, 1]][i] { }
    }
    assert RotN(U, 1) == Rot90(U);
    assert RotN(U, 2) == Rot90(RotN(U, 1));
    assert RotN(U, 3) == Rot90(RotN(U, 2));
  }

  lemma PeriodU()
    ensures RotN(U, 4) == U && LeastPeriod(U, 4)
  {
    TurnsU();
    RotFour(U);
    assert LeastPeriod(U, 4) by {
      forall d | 0 < d < 4 ensures RotN(U, d) != U {
        if d == 1 {
          assert RotN(U, 1)[0][0] != U[0][0];
        } else if d == 2 {
          assert RotN(U, 2)[0][0] != U[0][0];
        } else {
          assert RotN(U, 3)[0][2] != U[0][2];
        }
      }
    }
  }

  lemma MirrorU()
    ensures MirrorIsTurn(U)
  {
    TurnsU();
    assert Flip(U) == RotN(U, 2);
  }

  lemma ExactU()
    ensures ExactCounts(U, 1, 4) && Ones(U) == PieceSize
  {
    assert Ones(U) == PieceSize;
    PeriodU();
    MirrorU();
  }

  /** The three turns and the mirror image of T. */
  lemma TurnsT()
    ensures RotN(T, 1) == [[1, 0, 0], [1, 1, 1], [1, 0, 0]]
    ensures RotN(T, 2) == [[0, 1, 0], [0, 1, 0], [1, 1, 1]]
    ensures RotN(T, 3) == [[0, 0, 1], [1, 1, 1], [0, 0, 1]]
    ensures Flip(T) == [[1, 1, 1], [0, 1, 0], [0, 1, 0]]
  {
    assert Rot90(T) == [[1, 0, 0], [1, 1, 1], [1, 0, 0]] by {
      forall i | 0 <= i < 3 ensures Rot90(T)[i] == [[1, 0, 0], [1, 1, 1], [1, 0, 0]][i] { }
    }
    assert Rot90([[1, 0, 0], [1, 1, 1], [1, 0, 0]]) == [[0, 1, 0], [0, 1, 0], [1, 1, 1]] by {
      forall i | 0 <= i < 3 ensures Rot90([[1, 0, 0], [1, 1, 1], [1, 0, 0]])[i] == [[0, 1, 0], [0, 1, 0], [1, 1, 1]][i] { }
    }
    assert Rot90([[0, 1, 0], [0, 1, 0], [1, 1, 1]]) == [[0, 0, 1], [1, 1, 1], [0, 0, 1]] by {
      forall i | 0 <= i < 3 ensures Rot90([[0, 1, 0], [0, 1, 0], [1, 1, 1]])[i] == [[0, 0, 1], [1, 1, 1], [0, 0, 1]][i] { }
    }
    assert Flip(T) == [[1, 1, 1], [0, 1, 0], [0, 1, 0]] by {
      forall i | 0 <= i < 3 ensures Flip(T)[i] == [[1, 1, 1], [0, 1, 0], [0, 1, 0]][i] { }
    }
    assert RotN(T, 1) == Rot90(T);
    assert RotN(T, 2) == Rot90(RotN(T, 1));
    assert RotN(T, 3) == Rot90(RotN(T, 2));
  }

  lemma PeriodT()
    ensures RotN(T, 4) == T && LeastPeriod(T, 4)
  {
    TurnsT();
    RotFour(T);
    assert LeastPeriod(T, 4) by {
      forall d | 0 < d < 4 ensures RotN(T, d) != T {
        if d == 1 {
          assert RotN(T, 1)[0][1] != T[0][1];
        } else if d == 2 {
          assert RotN(T, 2)[0][0] != T[0][0];
        } else {
          assert RotN(T, 3)[0][0] != T[0][0];
        }
      }
    }
  }

  lemma MirrorT()
    ensures MirrorIsTurn(T)
  {
    TurnsT();
    assert Flip(T) == RotN(T, 0);
  }

  lemma ExactT()
    ensures ExactCounts(T, 1, 4) && Ones(T) == PieceSize
  {
    assert Ones(T) == PieceSize;
    PeriodT();
    MirrorT();
  }

  /** The three turns and the mirror image of W. */
  lemma TurnsW()
    ensures RotN(W, 1) == [[0, 1, 1], [1, 1, 0], [1, 0, 0]]
    ensures RotN(W, 2) == [[1, 0, 0], [1, 1, 0], [0, 1, 1]]
    ensures RotN(W, 3) == [[0, 0, 1], [0, 1, 1], [1, 1, 0]]
    ensures Flip(W) == [[0, 1, 1], [1, 1, 0], [1, 0, 0]]
  {
    assert Rot90(W) == [[0, 1, 1], [1, 1, 0], [1, 0, 0]] by {
      forall i | 0 <= i < 3 ensures Rot90(W)[i] == [[0, 1, 1], [1, 1, 0], [1, 0, 0]][i] { }
    }
    assert Rot90([[0, 1, 1], [1, 1, 0], [1, 0, 0]]) == [[1, 0, 0], [1, 1, 0], [0, 1, 1]] by {
      forall i | 0 <= i < 3 ensures Rot90([[0, 1, 1], [1, 1, 0], [1, 0, 0]])[i] == [[1, 0, 0], [1, 1, 0], [0, 1, 1]][i] { }
    }
    assert Rot90([[1, 0, 0], [1, 1, 0], [0, 1, 1]]) == [[0, 0, 1], [0, 1, 1], [1, 1, 0]] by {
      forall i | 0 <= i < 3 ensures Rot90([[1, 0, 0], [1, 1, 0], [0, 1, 1]])[i] == [[0, 0, 1], [0, 1, 1], [1, 1, 0]][i] { }
    }
    assert Flip(W) == [[0, 1, 1], [1, 1, 0], [1, 0, 0]] by {
      forall i | 0 <= i < 3 ensures Flip(W)[i] == [[0, 1, 1], [1, 1, 0], [1, 0, 0]][i] { }
    }
    assert RotN(W, 1) == Rot90(W);
    assert RotN(W, 2) == Rot90(RotN(W, 1));
    assert RotN(W, 3) == Rot90(RotN(W, 2));
  }

  lemma PeriodW()
    ensures RotN(W, 4) == W && LeastPeriod(W, 4)
  {
    TurnsW();
    RotFour(W);
    assert LeastPeriod(W, 4) by {
      forall d | 0 < d < 4 ensures RotN(W, d) != W {
        if d == 1 {
          assert RotN(W, 1)[0][0] != W[0][0];
        } else if d == 2 {
          assert RotN(W, 2)[0][1] != W[0][1];
        } else {
          assert RotN(W, 3)[0][0] != W[0][0];
        }
      }
    }
  }

  lemma MirrorW()
    ensures MirrorIsTurn(W)
  {
    TurnsW();
    assert Flip(W) == RotN(W, 1);
  }

  lemma ExactW()
    ensures ExactCounts(W, 1, 4) && Ones(W) == PieceSize
  {
    assert Ones(W) == PieceSize;
    PeriodW();
    MirrorW();
  }

  /** The three turns and the mirror image of Z. */
  lemma TurnsZ()
    ensures RotN(Z, 1) == [[0, 0, 1], [1, 1, 1], [1, 0, 0]]
    ensures RotN(Z, 2) == [[1, 1, 0], [0, 1, 0], [0, 1, 1]]
    ensures RotN(Z, 3) == [[0, 0, 1], [1, 1, 1], [1, 0, 0]]
    ensures Flip(Z) == [[0, 1, 1], [0, 1, 0], [1, 1, 0]]
  {
    assert Rot90(Z) == [[0, 0, 1], [1, 1, 1], [1, 0, 0]] by {
      forall i | 0 <= i < 3 ensures Rot90(Z)[i] == [[0, 0, 1], [1, 1, 1], [1, 0, 0]][i] { }
    }
    assert Rot90([[0, 0, 1], [1, 1, 1], [1, 0, 0]]) == [[1, 1, 0], [0, 1, 0], [0, 1, 1]] by {
      forall i | 0 <= i < 3 ensures Rot90([[0, 0, 1], [1, 1, 1], [1, 0, 0]])[i] == [[1, 1, 0], [0, 1, 0], [0, 1, 1]][i] { }
    }
    assert Rot90([[1, 1, 0], [0, 1, 0], [0, 1, 1]]) == [[0, 0, 1], [1, 1, 1], [1, 0, 0]] by {
      forall i | 0 <= i < 3 ensures Rot90([[1, 1, 0], [0, 1, 0], [0, 1, 1]])[i] == [[0, 0, 1], [1, 1, 1], [1, 0, 0]][i] { }
    }
    assert Flip(Z) == [[0, 1, 1], [0, 1, 0], [1, 1, 0]] by {
      forall i | 0 <= i < 3 ensures Flip(Z)[i] == [[0, 1, 1], [0, 1, 0], [1, 1, 0]][i] { }
    }
    assert RotN(Z, 1) == Rot90(Z);
    assert RotN(Z, 2) == Rot90(RotN(Z, 1));
    assert RotN(Z, 3) == Rot90(RotN(Z, 2));
  }

  lemma PeriodZ()
    ensures RotN(Z, 2) == Z && LeastPeriod(Z, 2)
  {
    TurnsZ();
    assert LeastPeriod(Z, 2) by {
      forall d | 0 < d < 2 ensures RotN(Z, d) != Z {
        assert RotN(Z, 1)[0][0] != Z[0][0];
      }
    }
  }

  lemma MirrorZ()
    ensures !MirrorIsTurn(Z)
  {
    TurnsZ();
    forall d | 0 <= d < 4 ensures Flip(Z) != RotN(Z, d) {
      if d == 0 {
        assert Flip(Z)[0][0] != RotN(Z, 0)[0][0];
      } else if d == 1 {
        assert Flip(Z)[0][1] != RotN(Z, 1)[0][1];
      } else if d == 2 {
        assert Flip(Z)[0][0] != RotN(Z, 2)[0][0];
      } else {
        assert Flip(Z)[0][1] != RotN(Z, 3)[0][1];
      }
    }
  }

  lemma ExactZ()
    ensures ExactCounts(Z, 2, 2) && Ones(Z) == PieceSize
  {
    assert Ones(Z) == PieceSize;
    PeriodZ();
    MirrorZ();
  }

  /** The three turns and the mirror image of P. */
  lemma TurnsP()
    ensures RotN(P, 1) == [[0, 0, 0], [0, 1, 1], [1, 1, 1]]
    ensures RotN(P, 2) == [[0, 1, 1], [0, 1, 1], [0, 0, 1]]
    ensures RotN(P, 3) == [[1, 1, 1], [1, 1, 0], [0, 0, 0]]
    ensures Flip(P) == [[0, 0, 1], [0, 1, 1], [0, 1, 1]]
  {
    assert Rot90(P) == [[0, 0, 0], [0, 1, 1], [1, 1, 1]] by {
      forall i | 0 <= i < 3 ensures Rot90(P)[i] == [[0, 0, 0], [0, 1, 1], [1, 1, 1]][i] { }
    }
    assert Rot90([[0, 0, 0], [0, 1, 1], [1, 1, 1]]) == [[0, 1, 1], [0, 1, 1], [0, 0, 1]] by {
      forall i | 0 <= i < 3 ensures Rot90([[0, 0, 0], [0, 1, 1], [1, 1, 1]])[i] == [[0, 1, 1], [0, 1, 1], [0, 0, 1]][i] { }
    }
    assert Rot90([[0, 1, 1], [0, 1, 1], [0, 0, 1]]) == [[1, 1, 1], [1, 1, 0], [0, 0, 0]] by {
      forall i | 0 <= i < 3 ensures Rot90([[0, 1, 1], [0, 1, 1], [0, 0, 1]])[i] == [[1, 1, 1], [1, 1, 0], [0, 0, 0]][i] { }
    }
    assert Flip(P) == [[0, 0, 1], [0, 1, 1], [0, 1, 1]] by {
      forall i | 0 <= i < 3 ensures Flip(P)[i] == [[0, 0, 1], [0, 1, 1], [0, 1, 1]][i] { }
    }
    assert RotN(P, 1) == Rot90(P);
    assert RotN(P, 2) == Rot90(RotN(P, 1));
    assert RotN(P, 3) == Rot90(RotN(P, 2));
  }

  lemma PeriodP()
    ensures RotN(P, 4) == P && LeastPeriod(P, 4)
  {
    TurnsP();
    RotFour(P);
    assert LeastPeriod(P, 4) by {
      forall d | 0 < d < 4 ensures RotN(P, d) != P {
        if d == 1 {
          assert RotN(P, 1)[0][0] != P[0][0];
        } else if d == 2 {
          assert RotN(P, 2)[0][0] != P[0][0];
        } else {
          assert RotN(P, 3)[0][1] != P[0][1];
        }
      }
    }
  }

  lemma MirrorP()
    ensures !MirrorIsTurn(P)
  {
    TurnsP();
    forall d | 0 <= d < 4 ensures Flip(P) != RotN(P, d) {
      if d == 0 {
        assert Flip(P)[0][0] != RotN(P, 0)[0][0];
      } else if d == 1 {
        assert Flip(P)[0][2] != RotN(P, 1)[0][2];
      } else if d == 2 {
        assert Flip(P)[0][1] != RotN(P, 2)[0][1];
      } else {
        assert Flip(P)[0][0] != RotN(P, 3)[0][0];
      }
    }
  }

  lemma ExactP()
    ensures ExactCounts(P, 2, 4) && Ones(P) == PieceSize
  {
    assert Ones(P) == PieceSize;
    PeriodP();
    MirrorP();
  }

  /** The three turns and the mirror image of F. */
  lemma TurnsF()
    ensures RotN(F, 1) == [[0, 1, 0], [1, 1, 1], [1, 0, 0]]
    ensures RotN(F, 2) == [[0, 1, 0], [1, 1, 0], [0, 1, 1]]
    ensures RotN(F, 3) == [[0, 0, 1], [1, 1, 1], [0, 1, 0]]
    ensures Flip(F) == [[0, 1, 1], [1, 1, 0], [0, 1, 0]]
  {
    assert Rot90(F) == [[0, 1, 0], [1, 1, 1], [1, 0, 0]] by {
      forall i | 0 <= i < 3 ensures Rot90(F)[i] == [[0, 1, 0], [1, 1, 1], [1, 0, 0]][i] { }
    }
    assert Rot90([[0, 1, 0], [1, 1, 1], [1, 0, 0]]) == [[0, 1, 0], [1, 1, 0], [0, 1, 1]] by {
      forall i | 0 <= i < 3 ensures Rot90([[0, 1, 0], [1, 1, 1], [1, 0, 0]])[i] == [[0, 1, 0], [1, 1, 0], [0, 1, 1]][i] { }
    }
    assert Rot90([[0, 1, 0], [1, 1, 0], [0, 1, 1]]) == [[0, 0, 1], [1, 1, 1], [0, 1, 0]] by {
      forall i | 0 <= i < 3 ensures Rot90([[0, 1, 0], [1, 1, 0], [0, 1, 1]])[i] == [[0, 0, 1], [1, 1, 1], [0, 1, 0]][i] { }
    }
    assert Flip(F) == [[0, 1, 1], [1, 1, 0], [0, 1, 0]] by {
      forall i | 0 <= i < 3 ensures Flip(F)[i] == [[0, 1, 1], [1, 1, 0], [0, 1, 0]][i] { }
    }
    assert RotN(F, 1) == Rot90(F);
    assert RotN(F, 2) == Rot90(RotN(F, 1));
    assert RotN(F, 3) == Rot90(RotN(F, 2));
  }

  lemma PeriodF()
    ensures RotN(F, 4) == F && LeastPeriod(F, 4)
  {
    TurnsF();
    RotFour(F);
    assert LeastPeriod(F, 4) by {
      forall d | 0 < d < 4 ensures RotN(F, d) != F {
        if d == 1 {
          assert RotN(F, 1)[0][0] != F[0][0];
        } else if d == 2 {
          assert RotN(F, 2)[0][0] != F[0][0];
        } else {
          assert RotN(F, 3)[0][0] != F[0][0];
        }
      }
    }
  }

  lemma MirrorF()
    ensures !MirrorIsTurn(F)
  {
    TurnsF();
    forall d | 0 <= d < 4 ensures Flip(F) != RotN(F, d) {
      if d == 0 {
        assert Flip(F)[0][0] != RotN(F, 0)[0][0];
      } else if d == 1 {
        assert Flip(F)[0][2] != RotN(F, 1)[0][2];
      } else if d == 2 {
        assert Flip(F)[0][2] != RotN(F, 2)[0][2];
      } else {
        assert Flip(F)[0][1] != RotN(F, 3)[0][1];
      }
    }
  }

  lemma ExactF()
    ensures ExactCounts(F, 2, 4) && Ones(F) == PieceSize
  {
    assert Ones(F) == PieceSize;
    PeriodF();
    MirrorF();
  }

  /** The three turns and the mirror image of I. */
  lemma TurnsI()
    ensures RotN(I, 1) == [[0, 0, 0, 0, 0], [0, 0, 0, 0, 0], [1, 1, 1, 1, 1], [0, 0, 0, 0, 0], [0, 0, 0, 0, 0]]
    ensures RotN(I, 2) == [[0, 0, 1, 0, 0], [0, 0, 1, 0, 0], [0, 0, 1, 0, 0], [0, 0, 1, 0, 0], [0, 0, 1, 0, 0]]
    ensures RotN(I, 3) == [[0, 0, 0, 0, 0], [0, 0, 0, 0, 0], [1, 1, 1, 1, 1], [0, 0, 0, 0, 0], [0, 0, 0, 0, 0]]
    ensures Flip(I) == [[0, 0, 1, 0, 0], [0, 0, 1, 0, 0], [0, 0, 1, 0, 0], [0, 0, 1, 0, 0], [0, 0, 1, 0, 0]]
  {
    var r1 := RotN(I, 1);
    var r2 := RotN(I, 2);
    assert r1 == Rot90(I) && r2 == Rot90(r1) && RotN(I, 3) == Rot90(r2);
    Rot90Five(I);
    Rot90Five(r1);
    Rot90Five(r2);
    FlipFive(I);
  }

  lemma PeriodI()
    ensures RotN(I, 2) == I && LeastPeriod(I, 2)
  {
    TurnsI();
    assert LeastPeriod(I, 2) by {
      forall d | 0 < d < 2 ensures RotN(I, d) != I {
        assert RotN(I, 1)[0][2] != I[0][2];
      }
    }
  }

  lemma MirrorI()
    ensures MirrorIsTurn(I)
  {
    TurnsI();
    assert Flip(I) == RotN(I, 0);
  }

  lemma ExactI()
    ensures ExactCounts(I, 1, 2) && Ones(I) == PieceSize
  {
    assert OnesFrom(I, 3, 0) == 2;
    assert Ones(I) == PieceSize;
    PeriodI();
    MirrorI();
  }

  /** The three turns and the mirror image of L. */
  lemma TurnsL()
    ensures RotN(L, 1) == [[0, 0, 0, 0, 0], [0, 1, 0, 0, 0], [0, 1, 1, 1, 1], [0, 0, 0, 0, 0], [0, 0, 0, 0, 0]]
    ensures RotN(L, 2) == [[0, 0, 1, 0, 0], [0, 0, 1, 0, 0], [0, 0, 1, 0, 0], [0, 1, 1, 0, 0], [0, 0, 0, 0, 0]]
    ensures RotN(L, 3) == [[0, 0, 0, 0, 0], [0, 0, 0, 0, 0], [1, 1, 1, 1, 0], [0, 0, 0, 1, 0], [0, 0, 0, 0, 0]]
    ensures Flip(L) == [[0, 0, 0, 0, 0], [0, 1, 1, 0, 0], [0, 0, 1, 0, 0], [0, 0, 1, 0, 0], [0, 0, 1, 0, 0]]
  {
    var r1 := RotN(L, 1);
    var r2 := RotN(L, 2);
    assert r1 == Rot90(L) && r2 == Rot90(r1) && RotN(L, 3) == Rot90(r2);
    Rot90Five(L);
    Rot90Five(r1);
    Rot90Five(r2);
    FlipFive(L);
  }

  lemma PeriodL()
    ensures RotN(L, 4) == L && LeastPeriod(L, 4)
  {
    TurnsL();
    RotFour(L);
    assert LeastPeriod(L, 4) by {
      forall d | 0 < d < 4 ensures RotN(L, d) != L {
        if d == 1 {
          assert RotN(L, 1)[1][1] != L[1][1];
        } else if d == 2 {
          assert RotN(L, 2)[0][2] != L[0][2];
        } else {
          assert RotN(L, 3)[1][2] != L[1][2];
        }
      }
    }
  }

  lemma MirrorL()
    ensures !MirrorIsTurn(L)
  {
    TurnsL();
    forall d | 0 <= d < 4 ensures Flip(L) != RotN(L, d) {
      if d == 0 {
        assert Flip(L)[1][1] != RotN(L, 0)[1][1];
      } else if d == 1 {
        assert Flip(L)[1][2] != RotN(L, 1)[1][2];
      } else if d == 2 {
        assert Flip(L)[0][2] != RotN(L, 2)[0][2];
      } else {
        assert Flip(L)[1][1] != RotN(L, 3)[1][1];
      }
    }
  }

  lemma ExactL()
    ensures ExactCounts(L, 2, 4) && Ones(L) == PieceSize
  {
    assert Ones(L) == PieceSize;
    PeriodL();
    MirrorL();
  }

  /** The three turns and the mirror image of Y. */
  lemma TurnsY()
    ensures RotN(Y, 1) == [[0, 0, 0, 0, 0], [0, 0, 1, 0, 0], [0, 1, 1, 1, 1], [0, 0, 0, 0, 0], [0, 0, 0, 0, 0]]
    ensures RotN(Y, 2) == [[0, 0, 1, 0, 0], [0, 0, 1, 0, 0], [0, 1, 1, 0, 0], [0, 0, 1, 0, 0], [0, 0, 0, 0, 0]]
    ensures RotN(Y, 3) == [[0, 0, 0, 0, 0], [0, 0, 0, 0, 0], [1, 1, 1, 1, 0], [0, 0, 1, 0, 0], [0, 0, 0, 0, 0]]
    ensures Flip(Y) == [[0, 0, 0, 0, 0], [0, 0, 1, 0, 0], [0, 1, 1, 0, 0], [0, 0, 1, 0, 0], [0, 0, 1, 0, 0]]
  {
    var r1 := RotN(Y, 1);
    var r2 := RotN(Y, 2);
    assert r1 == Rot90(Y) && r2 == Rot90(r1) && RotN(Y, 3) == Rot90(r2);
    Rot90Five(Y);
    Rot90Five(r1);
    Rot90Five(r2);
    FlipFive(Y);
  }

  lemma PeriodY()
    ensures RotN(Y, 4) == Y && LeastPeriod(Y, 4)
  {
    TurnsY();
    RotFour(Y);
    assert LeastPeriod(Y, 4) by {
      forall d | 0 < d < 4 ensures RotN(Y, d) != Y {
        if d == 1 {
          assert RotN(Y, 1)[2][1] != Y[2][1];
        } else if d == 2 {
          assert RotN(Y, 2)[0][2] != Y[0][2];
        } else {
          assert RotN(Y, 3)[1][2] != Y[1][2];
        }
      }
    }
  }

  lemma MirrorY()
    ensures !MirrorIsTurn(Y)
  {
    TurnsY();
    forall d | 0 <= d < 4 ensures Flip(Y) != RotN(Y, d) {
      if d == 0 {
        assert Flip(Y)[2][1] != RotN(Y, 0)[2][1];
      } else if d == 1 {
        assert Flip(Y)[2][3] != RotN(Y, 1)[2][3];
      } else if d == 2 {
        assert Flip(Y)[0][2] != RotN(Y, 2)[0][2];
      } else {
        assert Flip(Y)[1][2] != RotN(Y, 3)[1][2];
      }
    }
  }

  lemma ExactY()
    ensures ExactCounts(Y, 2, 4) && Ones(Y) == PieceSize
  {
    assert Ones(Y) == PieceSize;
    PeriodY();
    MirrorY();
  }

  /** The three turns and the mirror image of N. */
  lemma TurnsN()
    ensures RotN(N, 1) == [[0, 0, 0, 0, 0], [0, 1, 1, 0, 0], [0, 0, 1, 1, 1], [0, 0, 0, 0, 0], [0, 0, 0, 0, 0]]
    ensures RotN(N, 2) == [[0, 0, 1, 0, 0], [0, 0, 1, 0, 0], [0, 1, 1, 0, 0], [0, 1, 0, 0, 0], [0, 0, 0, 0, 0]]
    ensures RotN(N, 3) == [[0, 0, 0, 0, 0], [0, 0, 0, 0, 0], [1, 1, 1, 0, 0], [0, 0, 1, 1, 0], [0, 0, 0, 0, 0]]
    ensures Flip(N) == [[0, 0, 0, 0, 0], [0, 1, 0, 0, 0], [0, 1, 1, 0, 0], [0, 0, 1, 0, 0], [0, 0, 1, 0, 0]]
  {
    var r1 := RotN(N, 1);
    var r2 := RotN(N, 2);
    assert r1 == Rot90(N) && r2 == Rot90(r1) && RotN(N, 3) == Rot90(r2);
    Rot90Five(N);
    Rot90Five(r1);
    Rot90Five(r2);
    FlipFive(N);
  }

  lemma PeriodN()
    ensures RotN(N, 4) == N && LeastPeriod(N, 4)
  {
    TurnsN();
    RotFour(N);
    assert LeastPeriod(N, 4) by {
      forall d | 0 < d < 4 ensures RotN(N, d) != N {
        if d == 1 {
          assert RotN(N, 1)[1][1] != N[1][1];
        } else if d == 2 {
          assert RotN(N, 2)[0][2] != N[0][2];
        } else {
          assert RotN(N, 3)[1][3] != N[1][3];
        }
      }
    }
  }

  lemma MirrorN()
    ensures !MirrorIsTurn(N)
  {
    TurnsN();
    forall d | 0 <= d < 4 ensures Flip(N) != RotN(N, d) {
      if d == 0 {
        assert Flip(N)[1][1] != RotN(N, 0)[1][1];
      } else if d == 1 {
        assert Flip(N)[1][2] != RotN(N, 1)[1][2];
      } else if d == 2 {
        assert Flip(N)[0][2] != RotN(N, 2)[0][2];
      } else {
        assert Flip(N)[1][1] != RotN(N, 3)[1][1];
      }
    }
  }

  lemma ExactN()
    ensures ExactCounts(N, 2, 4) && Ones(N) == PieceSize
  {
    assert Ones(N) == PieceSize;
    PeriodN();
    MirrorN();
  }

  /**
   * Every catalog entry: side 3 or 5, exactly five 1-cells, and mirror and
   * rotation counts that are the exact symmetry counts of its mask.
   */
  lemma CatalogEntry(id: int)
    requires 1 <= id <= |Pentominoes|
    ensures var s := Pentomino(id);
      && (|s.mask| == 3 || |s.mask| == 5)
      && Ones(s.mask) == PieceSize
      && ExactCounts(s.mask, s.mirrors, s.rotations)
  {
    if id == 1 {
      assert Pentomino(id) == Shape(X, 1, 1);
      ExactX();
    } else if id == 2 {
      assert Pentomino(id) == Shape(V, 1, 4);
      ExactV();
    } else if id == 3 {
      assert Pentomino(id) == Shape(U, 1, 4);
      ExactU();
    } else if id == 4 {
      assert Pentomino(id) == Shape(T, 1, 4);
      ExactT();
    } else if id == 5 {
      assert Pentomino(id) == Shape(W, 1, 4);
      ExactW();
    } else if id == 6 {
      assert Pentomino(id) == Shape(Z, 2, 2);
      ExactZ();
    } else if id == 7 {
      assert Pentomino(id) == Shape(P, 2, 4);
      ExactP();
    } else if id == 8 {
      assert Pentomino(id) == Shape(F, 2, 4);
      ExactF();
    } else if id == 9 {
      assert Pentomino(id) == Shape(I, 1, 2);
      ExactI();
    } else if id == 10 {
      assert Pentomino(id) == Shape(L, 2, 4);
      ExactL();
    } else if id == 11 {
      assert Pentomino(id) == Shape(Y, 2, 4);
      ExactY();
    } else if id == 12 {
      assert Pentomino(id) == Shape(N, 2, 4);
      ExactN();
    }
  }

  /**
   * Whatever image of its catalog shape a piece's mask is in, the catalog's
   * mirror and rotation counts are its exact symmetry counts, so one
   * activation of the piece tries each of its orientations once
   * (ActivationComplete, ActivationDistinct).
   */
  lemma PieceExact(x: Mask, id: int)
    requires 1 <= id <= |Pentominoes| && IsImage(x, Pentomino(id).mask)
    ensures ExactCounts(x, Pentomino(id).mirrors, Pentomino(id).rotations)
  {
    CatalogEntry(id);
    ImageExact(x, Pentomino(id).mask, Pentomino(id).mirrors, Pentomino(id).rotations);
  }

  /**
   * Whatever orientation earlier activations left a piece's mask in, one
   * activation from there tries every orientation of its catalog shape,
   * tries nothing else, and tries none of them twice.
   */
  lemma PieceActivation(x: Mask, id: int)
    requires 1 <= id <= |Pentominoes| && IsImage(x, Pentomino(id).mask)
    ensures var e := Pentomino(id);
      forall y :: IsImage(y, e.mask) ==> Tried(Activation(x, e.rotations, e.mirrors), y)
    ensures var e := Pentomino(id);
      forall i, j :: 0 <= i < e.mirrors && 0 <= j < e.rotations ==> IsImage(Activation(x, e.rotations, e.mirrors)[i][j], e.mask)
    ensures var e := Pentomino(id);
      forall i, j, i', j' ::
        0 <= i < e.mirrors && 0 <= j < e.rotations && 0 <= i' < e.mirrors && 0 <= j' < e.rotations && (i, j) != (i', j')
        ==> Activation(x, e.rotations, e.mirrors)[i][j] != Activation(x, e.rotations, e.mirrors)[i'][j']
  {
    var e := Pentomino(id);
    var rows := Activation(x, e.rotations, e.mirrors);
    PieceExact(x, id);
    ActivationEnumerates(x, e.mirrors, e.rotations);
    forall y | IsImage(y, e.mask) ensures Tried(rows, y) {
      ImageSame(y, x, e.mask);
    }
    forall i, j | 0 <= i < e.mirrors && 0 <= j < e.rotations ensures IsImage(rows[i][j], e.mask) {
      ImageSame(rows[i][j], x, e.mask);
    }
  }
}

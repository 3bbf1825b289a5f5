/** What the tolerant leading index of src/DoubleMatrix.java does to the
    elimination algorithms, on one 2 x 2 matrix at the default tolerance
    0.0001. `leadingIndex` skips the entries 0.00005 of the first column as
    zero, so no round clears that column: `upperTriangular` leaves a cell
    below the diagonal, `determinant` reports 0 for a matrix whose
    determinant is 0.00495, `rref` leaves the leading columns out of order,
    and `inverse` rejects the matrix although it is invertible. */
module NearZeroLeads {
  import opened Wrappers
  import opened FloatMath
  import opened Matrices
  import opened RowOps
  import opened Elimination
  import opened MatrixStore
  import opened ExactElimination

  /** Its first column is within tolerance of zero; its determinant,
      0.00005 * 100 - 1 * 0.00005, is 0.00495. */
  function Skewed(): (m: Mat)
    ensures m.rows == m.columns == 2
    ensures m.cells[0][0] * m.cells[1][1] - m.cells[0][1] * m.cells[1][0] == 0.00495
  {
    Matrix(2, 2, [[0.00005, 1.0], [0.00005, 100.0]])
  }

  /** What the first round of `upperTriangular` leaves: row 1 minus 100
      times row 0. */
  function SkewedAfterRound(): (m: Mat)
    ensures m.rows == m.columns == 2
  {
    Matrix(2, 2, [[0.00005, 1.0], [-0.00495, 0.0]])
  }

  /** The leading index of a row whose first entry is within tolerance of
      zero and whose second is not is 1. */
  lemma LeadPastNearZero(row: seq<real>)
    requires |row| >= 2 && IsZero(DefaultTolerance, row[0]) && !IsZero(DefaultTolerance, row[1])
    ensures LeadIndex(DefaultTolerance, row) == 1
  {
    LeadIndexUnique(DefaultTolerance, row, 1);
  }

  /** `upperTriangular` on the skewed matrix: both rows lead in column 1, so
      nothing is swapped and the first round clears column 1 only; the
      second round has nothing below it. The cell below the diagonal ends
      up -0.00495, and the diagonal product, 0.00005 * 0, makes
      `determinant` report 0. */
  lemma {:induction false} SkewedTriangulation()
    ensures Triangulated(DefaultTolerance, Skewed(), 0) == Triangulation(SkewedAfterRound(), 0)
    ensures Triangulated(DefaultTolerance, Skewed(), 0).matrix.cells[1][0] == -0.00495
    ensures !IsUpperTriangular(Triangulated(DefaultTolerance, Skewed(), 0).matrix)
    ensures DeterminantOf(DefaultTolerance, Skewed()) == 0.0
  {
    var tol, m, n := DefaultTolerance, Skewed(), SkewedAfterRound();
    LeadPastNearZero(m.cells[0]);
    LeadPastNearZero(m.cells[1]);
    assert Leads(tol, m, 0) == [1, 1];
    SortedFromSorted(tol, m, 0);
    assert Inversions([1, 1]) == 0;
    assert !ZeroRow(tol, m.cells[0]) by {
      assert !IsZero(tol, m.cells[0][1]);
    }
    assert LeadEntry(tol, m.cells[0]) == 1.0;
    var added := AddedRow(m, 1, -m.cells[1][1] / 1.0, 0);
    assert added.cells[1] == n.cells[1];
    assert added == n;
    assert EliminatedBelow(m, 0, 1, 1.0, 1) == n;
    assert TriangularStep(tol, m, 0) == n;

    assert LeadIndex(tol, n.cells[1]) == 0;
    assert Leads(tol, n, 1) == [0];
    SortedFromSorted(tol, n, 1);
    assert Inversions([0]) == 0;
    assert !ZeroRow(tol, n.cells[1]) by {
      assert !IsZero(tol, n.cells[1][0]);
    }
    assert TriangularStep(tol, n, 1) == n;
    assert Triangulated(tol, n, 2) == Triangulation(n, 0);
    assert Triangulated(tol, n, 1) == Triangulation(n, 0);
    assert DiagonalProduct(n, 2) == 0.0 by {
      ZeroOnDiagonal(n, 2, 1);
    }
    assert !IsUpperTriangular(n) by {
      assert n.cells[1][0] != 0.0;
    }
  }

  /** What the forward pass of `rref` leaves: the second row divided by
      its leading entry -0.00495. */
  function SkewedForwarded(): (m: Mat)
    ensures m.rows == m.columns == 2
  {
    Matrix(2, 2, [[0.00005, 1.0], [1.0, 0.0]])
  }

  /** The 2 x 2 matrix with its rows in the wrong order. */
  function Exchange(): (m: Mat)
    ensures m.rows == m.columns == 2
  {
    Matrix(2, 2, [[0.0, 1.0], [1.0, 0.0]])
  }

  /** The forward pass of `rref` on the skewed matrix: both rows lead in
      column 1, so row 1 loses 100 times row 0; row 1 then leads in column
      0 with -0.00495 and is divided by it. */
  lemma {:induction false} SkewedForwardPass()
    ensures Forwarded(DefaultTolerance, Skewed(), 0) == SkewedForwarded()
  {
    var tol, m, n, f := DefaultTolerance, Skewed(), SkewedAfterRound(), SkewedForwarded();
    LeadPastNearZero(m.cells[0]);
    LeadPastNearZero(m.cells[1]);
    assert Leads(tol, m, 0) == [1, 1];
    SortedFromSorted(tol, m, 0);
    assert !ZeroRow(tol, m.cells[0]) by {
      assert !IsZero(tol, m.cells[0][1]);
    }
    assert LeadEntry(tol, m.cells[0]) == 1.0;
    ScaledByOne(m, 1.0 / 1.0, 0);
    var added := AddedRow(m, 1, -m.cells[1][1], 0);
    assert added.cells[1] == n.cells[1];
    assert added == n;
    assert SubtractedBelow(m, 0, 1, 1) == n;
    assert ForwardStep(tol, m, 0) == n;

    assert LeadIndex(tol, n.cells[1]) == 0;
    assert Leads(tol, n, 1) == [0];
    SortedFromSorted(tol, n, 1);
    assert !ZeroRow(tol, n.cells[1]) by {
      assert !IsZero(tol, n.cells[1][0]);
    }
    assert LeadEntry(tol, n.cells[1]) == -0.00495;
    var scaled := ScaledRow(n, 1.0 / -0.00495, 1);
    assert scaled.cells[1] == f.cells[1];
    assert scaled == f;
    assert ForwardStep(tol, n, 1) == f;
  }

  /** The backward pass of `rref` on what the forward pass leaves: row 1
      leads in column 0, so row 0 loses 0.00005 times row 1 and gets an
      exact 0 in column 0. */
  lemma {:induction false} SkewedBackwardPass()
    ensures Backwarded(DefaultTolerance, SkewedForwarded(), 1) == Exchange()
  {
    var tol, f, e := DefaultTolerance, SkewedForwarded(), Exchange();
    assert LeadIndex(tol, f.cells[1]) == 0;
    assert !ZeroRow(tol, f.cells[1]) by {
      assert !IsZero(tol, f.cells[1][0]);
    }
    var cleared := WithCell(AddedRow(f, 0, -f.cells[0][0], 1), 0, 0, 0.0);
    assert cleared.cells[0] == e.cells[0];
    assert cleared == e;
    assert EliminatedAbove(f, 1, 0, 0) == e;
  }

  /** `rref` on the skewed matrix leaves row 0 leading in column 1 and row
      1 in column 0, so the result is not in echelon form. */
  lemma SkewedReducedEchelon()
    ensures ReducedEchelon(DefaultTolerance, Skewed()) == Exchange()
    ensures !Sorted(Leads(DefaultTolerance, Exchange(), 0))
  {
    var tol, e := DefaultTolerance, Exchange();
    SkewedForwardPass();
    SkewedBackwardPass();
    LeadPastNearZero(e.cells[0]);
    assert LeadIndex(tol, e.cells[1]) == 0;
    assert Leads(tol, e, 0)[0] > Leads(tol, e, 0)[1];
  }

  /** The inverse of the skewed matrix: 1 / 0.00495 times [[100, -1],
      [-0.00005, 0.00005]]. */
  function SkewedInverse(): (m: Mat)
    ensures m.rows == m.columns == 2
  {
    var d := 0.00495;
    Matrix(2, 2, [[100.0 / d, -1.0 / d], [-0.00005 / d, 0.00005 / d]])
  }

  /** The 2 x 2 identity, written out. */
  lemma IdentityOfTwo()
    ensures Identity(2).value == Matrix(2, 2, [[1.0, 0.0], [0.0, 1.0]])
  {
    Extensionality(Identity(2).value, Matrix(2, 2, [[1.0, 0.0], [0.0, 1.0]]));
  }

  /** The dot product of two pairs. */
  lemma DotOfTwo(a: seq<real>, b: seq<real>)
    requires |a| == |b| == 2
    ensures Dot(a, b) == a[0] * b[0] + a[1] * b[1]
  {
    assert a[..1][..0] == [] && b[..1][..0] == [];
    assert Dot(a[..1], b[..1]) == Dot(a[..1][..0], b[..1][..0]) + a[0] * b[0];
  }

  /** The skewed matrix is invertible: it times SkewedInverse is the
      identity. */
  lemma SkewedIsInvertible()
    ensures Multiply(Skewed(), SkewedInverse()) == Ok(Identity(2).value)
  {
    var m, v, p := Skewed(), SkewedInverse(), Multiply(Skewed(), SkewedInverse()).value;
    IdentityOfTwo();
    forall i, j | 0 <= i < 2 && 0 <= j < 2
      ensures At(p, i, j) == At(Identity(2).value, i, j)
    {
      DotOfTwo(Row(m, i), Column(v, j));
    }
    Extensionality(p, Identity(2).value);
  }

  /** [Skewed | I], the matrix `inverse` hands to `rref`. */
  function SkewedAugmented(): (m: Mat)
    ensures m.rows == 2 && m.columns == 4
  {
    Matrix(2, 4, [[0.00005, 1.0, 1.0, 0.0], [0.00005, 100.0, 0.0, 1.0]])
  }

  /** What the forward pass of `rref` leaves of [Skewed | I]: column 1
      cleared under row 0, then row 1 scaled by 1 / -0.00495. */
  function SkewedAugmentedForwarded(): (m: Mat)
    ensures m.rows == 2 && m.columns == 4
  {
    Matrix(2, 4, [[0.00005, 1.0, 1.0, 0.0], [1.0, 0.0, -100.0 / -0.00495, 1.0 / -0.00495]])
  }

  /** What `rref` leaves of [Skewed | I]: column 0 cleared above row 1. */
  function SkewedAugmentedReduced(): (m: Mat)
    ensures m.rows == 2 && m.columns == 4
  {
    var a, b := -100.0 / -0.00495, 1.0 / -0.00495;
    Matrix(2, 4, [[0.0, 1.0, 1.0 + a * -0.00005, b * -0.00005], [1.0, 0.0, a, b]])
  }

  lemma SkewedAugmentedIs()
    ensures Augment(Skewed(), Identity(2).value) == Ok(SkewedAugmented())
  {
    IdentityOfTwo();
    var aug := Augment(Skewed(), Identity(2).value).value;
    assert aug.cells[0] == SkewedAugmented().cells[0];
    assert aug.cells[1] == SkewedAugmented().cells[1];
    assert aug.cells == SkewedAugmented().cells;
  }

  /** The first forward round on [Skewed | I]: both rows lead in column 1,
      so row 1 loses 100 times row 0. */
  lemma {:induction false} SkewedAugmentedFirstRound()
    ensures ForwardStep(DefaultTolerance, SkewedAugmented(), 0)
            == Matrix(2, 4, [[0.00005, 1.0, 1.0, 0.0], [-0.00495, 0.0, -100.0, 1.0]])
    ensures !ZeroRow(DefaultTolerance, SortedFrom(DefaultTolerance, SkewedAugmented(), 0).cells[0])
  {
    var tol, m := DefaultTolerance, SkewedAugmented();
    var n := Matrix(2, 4, [[0.00005, 1.0, 1.0, 0.0], [-0.00495, 0.0, -100.0, 1.0]]);
    LeadPastNearZero(m.cells[0]);
    LeadPastNearZero(m.cells[1]);
    assert Leads(tol, m, 0) == [1, 1];
    SortedFromSorted(tol, m, 0);
    assert !ZeroRow(tol, m.cells[0]) by {
      assert !IsZero(tol, m.cells[0][1]);
    }
    assert LeadEntry(tol, m.cells[0]) == 1.0;
    ScaledByOne(m, 1.0 / 1.0, 0);
    var added := AddedRow(m, 1, -m.cells[1][1], 0);
    assert added.cells[1] == n.cells[1];
    assert added == n;
    assert SubtractedBelow(m, 0, 1, 1) == n;
  }

  /** The second forward round: row 1 now leads in column 0 with
      -0.00495 and is divided by it. */
  lemma {:induction false} SkewedAugmentedSecondRound()
    ensures Forwarded(DefaultTolerance, Matrix(2, 4, [[0.00005, 1.0, 1.0, 0.0], [-0.00495, 0.0, -100.0, 1.0]]), 1)
            == SkewedAugmentedForwarded()
  {
    var tol, f := DefaultTolerance, SkewedAugmentedForwarded();
    var n := Matrix(2, 4, [[0.00005, 1.0, 1.0, 0.0], [-0.00495, 0.0, -100.0, 1.0]]);
    assert LeadIndex(tol, n.cells[1]) == 0;
    assert Leads(tol, n, 1) == [0];
    SortedFromSorted(tol, n, 1);
    assert !ZeroRow(tol, n.cells[1]) by {
      assert !IsZero(tol, n.cells[1][0]);
    }
    assert LeadEntry(tol, n.cells[1]) == -0.00495;
    var scaled := ScaledRow(n, 1.0 / -0.00495, 1);
    assert scaled.cells[1] == f.cells[1];
    assert scaled == f;
    assert ForwardStep(tol, n, 1) == f;
  }

  /** The backward pass: row 1 leads in column 0, so row 0 loses 0.00005
      times row 1 and gets an exact 0 in column 0. */
  lemma {:induction false} SkewedAugmentedBackward()
    ensures Backwarded(DefaultTolerance, SkewedAugmentedForwarded(), 1) == SkewedAugmentedReduced()
  {
    var tol, f, e := DefaultTolerance, SkewedAugmentedForwarded(), SkewedAugmentedReduced();
    assert LeadIndex(tol, f.cells[1]) == 0;
    assert !ZeroRow(tol, f.cells[1]) by {
      assert !IsZero(tol, f.cells[1][0]);
    }
    var cleared := WithCell(AddedRow(f, 0, -f.cells[0][0], 1), 0, 0, 0.0);
    assert cleared.cells[0] == e.cells[0];
    assert cleared == e;
    assert EliminatedAbove(f, 1, 0, 0) == e;
  }

  /** `inverse` on the skewed matrix: `rref` of [Skewed | I] leaves a left
      block with 0 at (0, 0), which is not the identity within tolerance,
      so `inverse` rejects the matrix although SkewedIsInvertible exhibits
      its inverse. */
  lemma SkewedInverseRejected()
    ensures Augment(Skewed(), Identity(2).value).Ok?
    ensures ReducedEchelon(DefaultTolerance, Augment(Skewed(), Identity(2).value).value) == SkewedAugmentedReduced()
    ensures !IsIdentityValue(DefaultTolerance, LeftColumns(SkewedAugmentedReduced(), 2).value)
  {
    var tol := DefaultTolerance;
    SkewedAugmentedIs();
    SkewedAugmentedFirstRound();
    SkewedAugmentedSecondRound();
    assert Forwarded(tol, SkewedAugmented(), 0) == SkewedAugmentedForwarded();
    SkewedAugmentedBackward();
    SkewedLeftBlock();
  }

  /** The left block of the reduced [Skewed | I] has 0 at (0, 0), where
      `isIdentity` asks for 1 within tolerance. */
  lemma SkewedLeftBlock()
    ensures !IsIdentityValue(DefaultTolerance, LeftColumns(SkewedAugmentedReduced(), 2).value)
  {
    var tol := DefaultTolerance;
    var left := LeftColumns(SkewedAugmentedReduced(), 2).value;
    assert At(left, 0, 0) == 0.0;
    assert !IdentityCell(tol, left, 0, 0) by {
      assert !IsZero(tol, [At(left, 0, 0), 1.0][1] - [At(left, 0, 0), 1.0][0]);
    }
  }

  /** `determinant` on an object holding the skewed matrix returns 0. */
  method SkewedDeterminant() returns (r: Result<real>)
    ensures r == Ok(0.0)
  {
    var d := new DoubleMatrix.FromValue(Skewed());
    SkewedTriangulation();
    r := d.Determinant(DefaultTolerance);
  }

  /** `inverse` on an object holding the skewed matrix fails with
      IllegalArgument, the exception documented for a matrix that is not
      invertible. */
  method SkewedInverseFails() returns (r: Result<Mat>)
    ensures r == Err(IllegalArgument)
  {
    var d := new DoubleMatrix.FromValue(Skewed());
    SkewedInverseRejected();
    r := d.Inverse(DefaultTolerance);
  }

  /** The corrected triangularisation of the skewed matrix: column 0 has
      the pivot 0.00005, so row 1 loses row 0 and becomes [0, 99]; the
      diagonal product 0.00005 * 99 is the determinant 0.00495. */
  lemma {:induction false} SkewedExactDeterminant()
    ensures ExactTriangulated(Skewed(), 0) == Triangulation(Matrix(2, 2, [[0.00005, 1.0], [0.0, 99.0]]), 0)
    ensures ExactDeterminant(Skewed()) == 0.00495
  {
    var m, n := Skewed(), Matrix(2, 2, [[0.00005, 1.0], [0.0, 99.0]]);
    assert PivotRow(m, 0, 0) == 0;
    var added := AddedRow(m, 1, -m.cells[1][0] / 0.00005, 0);
    assert added.cells[1] == n.cells[1];
    assert added == n;
    assert ExactStep(m, 0) == n;
    assert PivotRow(n, 1, 1) == 1;
    assert ExactStep(n, 1) == n;
    assert ExactTriangulated(n, 2) == Triangulation(n, 0);
    assert ExactTriangulated(n, 1) == Triangulation(n, 0);
    assert DiagonalProduct(n, 2) == 0.00005 * 99.0 by {
      DiagonalProductStep(n, 1, 99.0);
    }
  }
}

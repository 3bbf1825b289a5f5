/** The triangularisation `upperTriangular` evidently intends, with the
    tolerant leading index replaced by an exact zero test. Round i takes
    the first row from i on whose entry in column i is not exactly 0 as
    the pivot row, swaps it up to row i, and clears column i below it with
    the same row additions as src/DoubleMatrix.java:804-805. A column that
    is exactly 0 from row i down needs no pivot and is left as it is.
    Every cell below the diagonal then ends exactly 0, which the tolerant
    version does not achieve (module NearZeroLeads). */
module ExactElimination {
  import opened Matrices
  import opened RowOps
  import opened Elimination

  /** Every cell below the main diagonal is exactly 0. */
  predicate IsUpperTriangular(m: Mat) {
    forall r, c :: 0 <= c < r < m.rows && c < m.columns ==> m.cells[r][c] == 0.0
  }

  /** Columns 0, ..., i - 1 are exactly 0 below the diagonal. */
  predicate ClearedColumns(m: Mat, i: nat) {
    forall r, c :: 0 <= c < i && c < r < m.rows && c < m.columns ==> m.cells[r][c] == 0.0
  }

  /** The first row from k on whose entry in column `col` is not exactly 0,
      or the row count when there is none. */
  function PivotRow(m: Mat, col: nat, k: nat): (p: nat)
    requires k <= m.rows && col < m.columns
    ensures k <= p <= m.rows
    ensures p < m.rows ==> m.cells[p][col] != 0.0
    ensures forall r :: k <= r < p ==> m.cells[r][col] == 0.0
    decreases m.rows - k
  {
    if k == m.rows || m.cells[k][col] != 0.0 then k else PivotRow(m, col, k + 1)
  }

  /** Round i: bring the pivot row up to row i and clear column i below it;
      without a pivot row the matrix stays as it is. */
  function ExactStep(m: Mat, i: nat): (s: Mat)
    requires i < m.rows && i < m.columns
    ensures s.rows == m.rows && s.columns == m.columns
  {
    var p := PivotRow(m, i, i);
    if p == m.rows then m
    else
      var swapped := if p == i then m else SwappedRows(m, i, p);
      EliminatedBelow(swapped, i, i, swapped.cells[i][i], i + 1)
  }

  /** The rounds from i on of a square matrix, with the number of row swaps
      they make. */
  function ExactTriangulated(m: Mat, i: nat): (t: Triangulation)
    requires m.rows == m.columns && i <= m.rows
    ensures t.matrix.rows == m.rows && t.matrix.columns == m.columns
    decreases m.rows - i
  {
    if i == m.rows then Triangulation(m, 0)
    else
      var p := PivotRow(m, i, i);
      var rest := ExactTriangulated(ExactStep(m, i), i + 1);
      Triangulation(rest.matrix, (if i < p < m.rows then 1 else 0) + rest.swaps)
  }

  /** The determinant the intended `determinant` computes: the diagonal
      product of the triangular form, negated for an odd number of swaps. */
  function ExactDeterminant(m: Mat): real
    requires m.rows == m.columns
  {
    var t := ExactTriangulated(m, 0);
    WithSign(DiagonalProduct(t.matrix, m.rows), Parity(t.swaps))
  }

  /** Clearing column i below a nonzero pivot on the diagonal, from row j
      on, keeps the columns before i cleared (row i holds 0 in each of
      them) and clears column i. */
  lemma {:induction false} EliminatedBelowClearsColumn(m: Mat, i: nat, pivot: real, j: nat)
    requires i < j <= m.rows && i < m.columns
    requires pivot == m.cells[i][i] && pivot != 0.0
    requires ClearedColumns(m, i)
    requires forall k :: i < k < j ==> m.cells[k][i] == 0.0
    ensures ClearedColumns(EliminatedBelow(m, i, i, pivot, j), i + 1)
    decreases m.rows - j
  {
    if j < m.rows {
      var x := m.cells[j][i];
      var next := AddedRow(m, j, -x / pivot, i);
      Cancels(x, pivot);
      assert next.cells[j][i] == 0.0;
      forall r, c | 0 <= c < i && c < r < m.rows && c < m.columns
        ensures next.cells[r][c] == 0.0
      {
        if r == j {
          AddsNothing(m.cells[j][c], m.cells[i][c], -x / pivot);
        }
      }
      EliminatedBelowClearsColumn(next, i, pivot, j + 1);
    }
  }

  /** Round i keeps the columns before i cleared and clears column i. */
  lemma ExactStepClears(m: Mat, i: nat)
    requires i < m.rows && i < m.columns && ClearedColumns(m, i)
    ensures ClearedColumns(ExactStep(m, i), i + 1)
  {
    var p := PivotRow(m, i, i);
    if p < m.rows {
      var swapped := if p == i then m else SwappedRows(m, i, p);
      assert ClearedColumns(swapped, i) by {
        forall r, c | 0 <= c < i && c < r < m.rows && c < m.columns
          ensures swapped.cells[r][c] == 0.0
        {
          if p != i && (r == i || r == p) {
            assert m.cells[i][c] == 0.0 && m.cells[p][c] == 0.0;
          }
        }
      }
      EliminatedBelowClearsColumn(swapped, i, swapped.cells[i][i], i + 1);
    }
  }

  /** The rounds from i on finish what the first i rounds started: the
      result is upper triangular. */
  lemma {:induction false} ExactTriangulatedFrom(m: Mat, i: nat)
    requires m.rows == m.columns && i <= m.rows && ClearedColumns(m, i)
    ensures IsUpperTriangular(ExactTriangulated(m, i).matrix)
    decreases m.rows - i
  {
    if i < m.rows {
      ExactStepClears(m, i);
      ExactTriangulatedFrom(ExactStep(m, i), i + 1);
    }
  }

  /** With an exact zero test the triangularisation of every square matrix
      is upper triangular, so its diagonal product is the determinant up to
      the sign of the swaps. */
  lemma ExactTriangulationIsUpper(m: Mat)
    requires m.rows == m.columns
    ensures IsUpperTriangular(ExactTriangulated(m, 0).matrix)
  {
    ExactTriangulatedFrom(m, 0);
  }
}

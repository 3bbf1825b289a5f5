/** What the elimination algorithms of src/DoubleMatrix.java (`rref`,
    `upperTriangular`, `determinant`) establish, stated on matrix values, and
    the one-round facts their loops are proved with. Entries are compared
    with the tolerance `tol`, so "leading column" means the column of the
    first entry that is not zero within tolerance; the zeros the algorithms
    write below and above a leading column are exact. */
module Elimination {
  import opened FloatMath
  import opened Matrices
  import opened RowOps

  /** Row t is a zero row, or every row above it has exactly 0 in t's
      leading column: what the backward pass of `rref` leaves behind. */
  predicate ClearedAbove(tol: real, m: Mat, t: nat) {
    t < m.rows && !ZeroRow(tol, m.cells[t]) ==>
      forall j :: 0 <= j < t ==> At(m, j, LeadIndex(tol, m.cells[t])) == 0.0
  }

  /** Row t is a zero row, or every row below it has exactly 0 in t's
      leading column: what `upperTriangular` leaves behind. */
  predicate ClearedBelow(tol: real, m: Mat, t: nat) {
    t < m.rows && !ZeroRow(tol, m.cells[t]) ==>
      forall j :: t < j < m.rows ==> At(m, j, LeadIndex(tol, m.cells[t])) == 0.0
  }

  /** A nonzero row has its leading column inside the row. */
  lemma LeadInside(tol: real, row: seq<real>)
    requires !ZeroRow(tol, row)
    ensures LeadIndex(tol, row) < |row|
  {
    ZeroRowHasNoLead(tol, row);
  }

  /** One round of the inner backward loop of `rref`: adding a multiple of
      row i to a row j above it and then writing 0 into column `col` of row
      j changes row j only, leaves 0 in column `col` of row j, and keeps the
      columns already cleared for the rows below i cleared, because row i
      itself holds 0 in each of them. */
  lemma ClearAboveRound(tol: real, m: Mat, i: nat, j: nat, col: nat, scalar: real, next: Mat)
    requires j < i < m.rows && col < m.columns
    requires forall t :: i < t < m.rows ==> ClearedAbove(tol, m, t)
    requires forall k :: j < k < i ==> At(m, k, col) == 0.0
    requires next == WithCell(AddedRow(m, j, scalar, i), j, col, 0.0)
    ensures next.rows == m.rows && next.columns == m.columns
    ensures forall r :: 0 <= r < m.rows && r != j ==> next.cells[r] == m.cells[r]
    ensures forall k :: j <= k < i ==> At(next, k, col) == 0.0
    ensures forall t :: i < t < m.rows ==> ClearedAbove(tol, next, t)
  {
    var added := AddedRow(m, j, scalar, i);
    forall r | 0 <= r < m.rows && r != j
      ensures next.cells[r] == m.cells[r]
    {
      assert next.cells[r] == added.cells[r];
    }
    forall k | j < k < i
      ensures At(next, k, col) == 0.0
    {
      assert At(m, k, col) == 0.0;
      assert next.cells[k] == m.cells[k];
    }
    forall t | i < t < m.rows
      ensures ClearedAbove(tol, next, t)
    {
      assert ClearedAbove(tol, m, t);
      assert next.cells[t] == m.cells[t];
      if !ZeroRow(tol, m.cells[t]) {
        var lead := LeadIndex(tol, m.cells[t]);
        LeadInside(tol, m.cells[t]);
        forall k | 0 <= k < t
          ensures At(next, k, lead) == 0.0
        {
          assert At(m, k, lead) == 0.0;
          if k == j && lead != col {
            assert At(m, j, lead) == 0.0 && At(m, i, lead) == 0.0;
            AddsNothing(m.cells[j][lead], m.cells[i][lead], scalar);
            assert At(next, j, lead) == At(added, j, lead) == m.cells[j][lead] + m.cells[i][lead] * scalar;
          } else if k != j {
            assert next.cells[k] == m.cells[k];
          }
        }
      }
    }
  }

  /** Adding a multiple of 0 to 0 gives 0. */
  lemma AddsNothing(x: real, y: real, scalar: real)
    requires x == 0.0 && y == 0.0
    ensures x + y * scalar == 0.0
  {
  }

  /** x plus pivot times (-x / pivot) is exactly 0. */
  lemma Cancels(x: real, pivot: real)
    requires pivot != 0.0
    ensures x + pivot * (-x / pivot) == 0.0
  {
  }

  /** One round of the inner loop of `upperTriangular`: adding
      `-m[j][lead] / pivot` times row i, whose cell in column `lead` is the
      pivot, to a row j below it changes row j only, makes its cell in column
      `lead` exactly 0, and keeps the columns cleared for the rows above i
      cleared, because row i itself holds 0 in each of them. */
  lemma ClearBelowRound(tol: real, m: Mat, i: nat, j: nat, lead: nat, pivot: real, scalar: real, next: Mat)
    requires i < j < m.rows && lead < m.columns
    requires pivot == m.cells[i][lead] && pivot != 0.0
    requires forall t :: 0 <= t < i ==> ClearedBelow(tol, m, t)
    requires scalar == -m.cells[j][lead] / pivot
    requires forall k :: i < k < j ==> At(m, k, lead) == 0.0
    requires next == AddedRow(m, j, scalar, i)
    ensures next.rows == m.rows && next.columns == m.columns
    ensures forall r :: 0 <= r < m.rows && r != j ==> next.cells[r] == m.cells[r]
    ensures forall k :: i < k <= j ==> At(next, k, lead) == 0.0
    ensures forall t :: 0 <= t < i ==> ClearedBelow(tol, next, t)
  {
    Cancels(m.cells[j][lead], pivot);
    forall k | i < k < j
      ensures At(next, k, lead) == 0.0
    {
      assert At(m, k, lead) == 0.0;
      assert next.cells[k] == m.cells[k];
    }
    forall t | 0 <= t < i
      ensures ClearedBelow(tol, next, t)
    {
      assert ClearedBelow(tol, m, t);
      assert next.cells[t] == m.cells[t];
      if !ZeroRow(tol, m.cells[t]) {
        var l := LeadIndex(tol, m.cells[t]);
        LeadInside(tol, m.cells[t]);
        forall k | t < k < m.rows
          ensures At(next, k, l) == 0.0
        {
          assert At(m, k, l) == 0.0;
          if k == j {
            assert At(m, j, l) == 0.0 && At(m, i, l) == 0.0;
            AddsNothing(m.cells[j][l], m.cells[i][l], scalar);
            assert At(next, j, l) == m.cells[j][l] + m.cells[i][l] * scalar;
          } else {
            assert next.cells[k] == m.cells[k];
          }
        }
      }
    }
  }

  /** `sortRows(start)` keeps the columns cleared below a row above `start`:
      that row stays where it is, and each row below it is either unmoved
      or one of the rows from `start` on, all of which were cleared. */
  lemma RearrangedKeepsClearedBelow(tol: real, m: Mat, sorted: Mat, start: nat, t: nat)
    requires RowsRearranged(m, sorted, start) && sorted.columns == m.columns && t < start
    requires ClearedBelow(tol, m, t)
    ensures ClearedBelow(tol, sorted, t)
  {
    if t < m.rows && !ZeroRow(tol, m.cells[t]) {
      assert sorted.cells[t] == sorted.cells[..start][t] == m.cells[t];
      var lead := LeadIndex(tol, m.cells[t]);
      forall k | t < k < m.rows
        ensures At(sorted, k, lead) == 0.0
      {
        if k < start {
          assert At(m, k, lead) == 0.0;
          assert sorted.cells[k] == sorted.cells[..start][k] == m.cells[k];
        } else {
          PermutedRowIsARow(sorted.cells[start..], m.cells[start..], k - start);
          var k' :| 0 <= k' < m.rows - start && m.cells[start..][k'] == sorted.cells[start..][k - start];
          assert m.cells[start + k'] == sorted.cells[k];
          assert At(m, start + k', lead) == 0.0;
        }
      }
    }
  }

  /** Once the leading indices from row `start` on ascend, a zero row at
      `start` means that every row from `start` on is a zero row: this is why
      `rref` and `upperTriangular` may stop at the first zero row. */
  lemma ZeroRowsFollow(tol: real, m: Mat, start: nat)
    requires start < m.rows && Sorted(Leads(tol, m, start)) && ZeroRow(tol, m.cells[start])
    ensures forall t :: start <= t < m.rows ==> ZeroRow(tol, m.cells[t])
  {
    LeadsAt(tol, m, start, start);
    ZeroRowHasNoLead(tol, m.cells[start]);
    forall t | start < t < m.rows
      ensures ZeroRow(tol, m.cells[t])
    {
      LeadsAt(tol, m, start, t);
      ZeroRowHasNoLead(tol, m.cells[t]);
    }
  }

  /** The sign contribution of a swap count: every row swap flips the sign
      of the determinant once. */
  function Parity(swaps: nat): (sign: real)
    ensures sign == 1.0 || sign == -1.0
  {
    if swaps == 0 then 1.0 else -Parity(swaps - 1)
  }

  /** The sign of a swap count is +1 exactly when the count is even, the
      test `upperTriangular` makes on every `sortRows` count. */
  lemma {:induction false} ParityEven(swaps: nat)
    ensures Parity(swaps) == 1.0 <==> swaps % 2 == 0
  {
    if swaps > 0 {
      ParityEven(swaps - 1);
    }
  }

  /** Multiplying the signs of two swap counts gives the sign of their sum. */
  lemma {:induction false} ParityAdds(a: nat, b: nat)
    ensures Parity(a) * Parity(b) == Parity(a + b)
  {
    if b > 0 {
      ParityAdds(a, b - 1);
      assert Parity(a + b) == -Parity(a + b - 1);
    }
  }

  /** One round of `upperTriangular`'s sign update: multiplying the running
      sign by +1 for an even `sortRows` count and by -1 for an odd one gives
      the sign of the total count. */
  lemma ParityStep(sign: real, swaps: nat, count: nat, next: real, total: nat)
    requires sign == Parity(swaps) && total == swaps + count
    requires next == sign * (if count % 2 == 0 then 1.0 else -1.0)
    ensures next == Parity(total)
  {
    ParityAdds(swaps, count);
    ParityEven(count);
  }

  /** The product of the first n entries of the main diagonal: the product
      `determinant` forms over its triangularised copy. */
  function DiagonalProduct(m: Mat, n: nat): real
    requires n <= m.rows && n <= m.columns
  {
    if n == 0 then 1.0 else DiagonalProduct(m, n - 1) * m.cells[n - 1][n - 1]
  }

  /** One more diagonal entry multiplies the product by it. */
  lemma DiagonalProductStep(m: Mat, n: nat, x: real)
    requires n < m.rows && n < m.columns && x == m.cells[n][n]
    ensures DiagonalProduct(m, n + 1) == DiagonalProduct(m, n) * x
  {
  }

  /** An exact 0 on the diagonal makes the diagonal product 0. */
  lemma {:induction false} ZeroOnDiagonal(m: Mat, n: nat, k: nat)
    requires k < n <= m.rows && n <= m.columns
    requires m.cells[k][k] == 0.0
    ensures DiagonalProduct(m, n) == 0.0
  {
    if k < n - 1 {
      ZeroOnDiagonal(m, n - 1, k);
    }
  }

  // ------------------------------------ the algorithms, step by step, on values

  /** The inner loop of `upperTriangular` from row j on: every row j below
      row i gains `-m[j][lead] / pivot` times row i. */
  function EliminatedBelow(m: Mat, i: nat, lead: nat, pivot: real, j: nat): (s: Mat)
    requires i < j <= m.rows && lead < m.columns && pivot != 0.0
    ensures s.rows == m.rows && s.columns == m.columns
    decreases m.rows - j
  {
    if j == m.rows then m
    else EliminatedBelow(AddedRow(m, j, -m.cells[j][lead] / pivot, i), i, lead, pivot, j + 1)
  }

  /** One round of the inner loop of `upperTriangular`, on row j holding x
      in column `lead`. */
  lemma EliminatedBelowStep(m: Mat, i: nat, lead: nat, pivot: real, j: nat, x: real, scalar: real, next: Mat)
    requires i < j < m.rows && lead < m.columns && pivot != 0.0
    requires x == m.cells[j][lead] && scalar == -x / pivot && next == AddedRow(m, j, scalar, i)
    ensures EliminatedBelow(next, i, lead, pivot, j + 1) == EliminatedBelow(m, i, lead, pivot, j)
  {
  }

  /** Round i of `upperTriangular`: sort rows i, i + 1, ... by leading index;
      unless row i is then a zero row, clear its leading column below it
      with its leading entry as the pivot. */
  function TriangularStep(tol: real, m: Mat, i: nat): (s: Mat)
    requires tol > 0.0 && i < m.rows
    ensures s.rows == m.rows && s.columns == m.columns
  {
    var sorted := SortedFrom(tol, m, i);
    var row := sorted.cells[i];
    if ZeroRow(tol, row) then sorted
    else
      LeadInside(tol, row);
      LeadEntryNonZero(tol, row);
      EliminatedBelow(sorted, i, LeadIndex(tol, row), LeadEntry(tol, row), i + 1)
  }

  /** The matrix `upperTriangular` leaves and the number of row swaps its
      `sortRows` calls make. */
  datatype Triangulation = Triangulation(matrix: Mat, swaps: nat)

  /** `upperTriangular` from round i on: rounds until the last row, or until
      the sorted row i is a zero row. */
  function Triangulated(tol: real, m: Mat, i: nat): (t: Triangulation)
    requires tol > 0.0 && i <= m.rows
    ensures t.matrix.rows == m.rows && t.matrix.columns == m.columns
    decreases m.rows - i
  {
    if i == m.rows then Triangulation(m, 0)
    else
      var count := Inversions(Leads(tol, m, i));
      var next := TriangularStep(tol, m, i);
      if ZeroRow(tol, SortedFrom(tol, m, i).cells[i]) then Triangulation(next, count)
      else
        var rest := Triangulated(tol, next, i + 1);
        Triangulation(rest.matrix, count + rest.swaps)
  }

  /** Past the last row `upperTriangular` changes nothing more. */
  lemma TriangulatedEnd(tol: real, m: Mat)
    requires tol > 0.0
    ensures Triangulated(tol, m, m.rows) == Triangulation(m, 0)
  {
  }

  /** Round i of `upperTriangular`, with `count` the swaps of its sort and
      `next` the matrix it leaves, as it enters the whole result. */
  lemma TriangulatedStep(tol: real, m: Mat, i: nat, count: nat, zero: bool, next: Mat)
    requires tol > 0.0 && i < m.rows
    requires count == Inversions(Leads(tol, m, i))
    requires zero <==> ZeroRow(tol, SortedFrom(tol, m, i).cells[i])
    requires next == TriangularStep(tol, m, i)
    ensures zero ==> Triangulated(tol, m, i) == Triangulation(next, count)
    ensures !zero ==> Triangulated(tol, m, i).matrix == Triangulated(tol, next, i + 1).matrix
    ensures !zero ==> Triangulated(tol, m, i).swaps == count + Triangulated(tol, next, i + 1).swaps
  {
  }

  /** The last step of `determinant`: the diagonal product times the sign
      of the row swaps. */
  function WithSign(product: real, sign: real): real {
    product * sign
  }

  /** `determinant` on a square value: the product of the main diagonal of
      the triangular form, negated when the row swaps were odd in number. */
  function DeterminantOf(tol: real, m: Mat): real
    requires tol > 0.0 && m.rows == m.columns
  {
    var t := Triangulated(tol, m, 0);
    WithSign(DiagonalProduct(t.matrix, m.rows), Parity(t.swaps))
  }

  /** The inner loop of the forward pass of `rref` from row j on: every row
      j below row i gains `-m[j][col]` times row i. */
  function SubtractedBelow(m: Mat, i: nat, col: nat, j: nat): (s: Mat)
    requires i < j <= m.rows && col < m.columns
    ensures s.rows == m.rows && s.columns == m.columns
    decreases m.rows - j
  {
    if j == m.rows then m
    else SubtractedBelow(AddedRow(m, j, -m.cells[j][col], i), i, col, j + 1)
  }

  /** One round of the inner loop of the forward pass of `rref`, on row j
      holding x in column `col`. */
  lemma SubtractedBelowStep(m: Mat, i: nat, col: nat, j: nat, x: real, scalar: real, next: Mat)
    requires i < j < m.rows && col < m.columns
    requires x == m.cells[j][col] && scalar == -x && next == AddedRow(m, j, scalar, i)
    ensures SubtractedBelow(next, i, col, j + 1) == SubtractedBelow(m, i, col, j)
  {
  }

  /** Round i of the forward pass of `rref`: sort rows i, i + 1, ...; unless
      row i is then a zero row, divide it by its leading entry and subtract
      multiples of it from the rows below. */
  function ForwardStep(tol: real, m: Mat, i: nat): (s: Mat)
    requires tol > 0.0 && i < m.rows
    ensures s.rows == m.rows && s.columns == m.columns
  {
    var sorted := SortedFrom(tol, m, i);
    var row := sorted.cells[i];
    if ZeroRow(tol, row) then sorted
    else
      LeadInside(tol, row);
      LeadEntryNonZero(tol, row);
      SubtractedBelow(ScaledRow(sorted, 1.0 / LeadEntry(tol, row), i), i, LeadIndex(tol, row), i + 1)
  }

  /** The forward pass of `rref` from round i on: rounds until the last row,
      or until the sorted row i is a zero row. */
  function Forwarded(tol: real, m: Mat, i: nat): (s: Mat)
    requires tol > 0.0 && i <= m.rows
    ensures s.rows == m.rows && s.columns == m.columns
    decreases m.rows - i
  {
    if i == m.rows then m
    else if ZeroRow(tol, SortedFrom(tol, m, i).cells[i]) then ForwardStep(tol, m, i)
    else Forwarded(tol, ForwardStep(tol, m, i), i + 1)
  }

  /** The inner loop of the backward pass of `rref` from row j up to row 0:
      every row j above row i gains `-m[j][col]` times row i and then gets an
      exact 0 in column `col`. */
  function EliminatedAbove(m: Mat, i: nat, col: nat, j: int): (s: Mat)
    requires -1 <= j < i < m.rows && col < m.columns
    ensures s.rows == m.rows && s.columns == m.columns
    decreases j + 1
  {
    if j < 0 then m
    else EliminatedAbove(WithCell(AddedRow(m, j, -m.cells[j][col], i), j, col, 0.0), i, col, j - 1)
  }

  /** One round of the inner loop of the backward pass of `rref`, on row j
      holding x in column `col`. */
  lemma EliminatedAboveStep(m: Mat, i: nat, col: nat, j: nat, x: real, next: Mat)
    requires j < i < m.rows && col < m.columns
    requires x == m.cells[j][col] && next == WithCell(AddedRow(m, j, -x, i), j, col, 0.0)
    ensures EliminatedAbove(next, i, col, j - 1) == EliminatedAbove(m, i, col, j)
  {
  }

  /** The backward pass of `rref` from row i up to row 1: the leading column
      of every nonzero row is cleared in the rows above it. */
  function Backwarded(tol: real, m: Mat, i: int): (s: Mat)
    requires -1 <= i < m.rows
    ensures s.rows == m.rows && s.columns == m.columns
    decreases i + 1
  {
    if i < 1 then m
    else if ZeroRow(tol, m.cells[i]) then Backwarded(tol, m, i - 1)
    else
      LeadInside(tol, m.cells[i]);
      Backwarded(tol, EliminatedAbove(m, i, LeadIndex(tol, m.cells[i]), i - 1), i - 1)
  }

  /** `rref` on a value: the forward pass, then the backward pass. */
  function ReducedEchelon(tol: real, m: Mat): (s: Mat)
    requires tol > 0.0
    ensures s.rows == m.rows && s.columns == m.columns
  {
    Backwarded(tol, Forwarded(tol, m, 0), m.rows - 1)
  }

  // ------------------------------------------- what the algorithms establish

  /** The inner loop of `upperTriangular` keeps row i and the columns
      cleared for the rows above it, and leaves exact zeros below the pivot. */
  lemma {:induction false} EliminatedBelowClears(tol: real, m: Mat, i: nat, lead: nat, pivot: real, j: nat)
    requires i < j <= m.rows && lead < m.columns
    requires pivot == m.cells[i][lead] && pivot != 0.0
    requires forall t :: 0 <= t < i ==> ClearedBelow(tol, m, t)
    requires forall k :: i < k < j ==> At(m, k, lead) == 0.0
    ensures EliminatedBelow(m, i, lead, pivot, j).cells[i] == m.cells[i]
    ensures forall t :: 0 <= t < i ==> ClearedBelow(tol, EliminatedBelow(m, i, lead, pivot, j), t)
    ensures forall k :: i < k < m.rows ==> At(EliminatedBelow(m, i, lead, pivot, j), k, lead) == 0.0
    decreases m.rows - j
  {
    if j < m.rows {
      var scalar := -m.cells[j][lead] / pivot;
      var next := AddedRow(m, j, scalar, i);
      ClearBelowRound(tol, m, i, j, lead, pivot, scalar, next);
      EliminatedBelowClears(tol, next, i, lead, pivot, j + 1);
    }
  }

  /** Round i of `upperTriangular` keeps the columns cleared for the rows
      above i and clears the leading column of row i; when the sorted row
      i is a zero row, so is every row below it, and nothing is left to
      clear. */
  lemma TriangularStepClears(tol: real, m: Mat, i: nat)
    requires tol > 0.0 && i < m.rows
    requires forall t :: 0 <= t < i ==> ClearedBelow(tol, m, t)
    ensures ZeroRow(tol, SortedFrom(tol, m, i).cells[i]) ==>
              forall t :: 0 <= t < m.rows ==> ClearedBelow(tol, TriangularStep(tol, m, i), t)
    ensures forall t :: 0 <= t <= i ==> ClearedBelow(tol, TriangularStep(tol, m, i), t)
  {
    var sorted := SortedFrom(tol, m, i);
    SortedFromSorts(tol, m, i);
    forall t | 0 <= t < i
      ensures ClearedBelow(tol, sorted, t)
    {
      RearrangedKeepsClearedBelow(tol, m, sorted, i, t);
    }
    var row := sorted.cells[i];
    if ZeroRow(tol, row) {
      ZeroRowsFollow(tol, sorted, i);
    } else {
      LeadInside(tol, row);
      LeadEntryNonZero(tol, row);
      var lead := LeadIndex(tol, row);
      EliminatedBelowClears(tol, sorted, i, lead, LeadEntry(tol, row), i + 1);
      assert ClearedBelow(tol, TriangularStep(tol, m, i), i);
    }
  }

  /** `upperTriangular` leaves only exact zeros below the leading entry of
      every nonzero row. */
  lemma {:induction false} TriangulatedClears(tol: real, m: Mat, i: nat)
    requires tol > 0.0 && i <= m.rows
    requires forall t :: 0 <= t < i ==> ClearedBelow(tol, m, t)
    ensures forall t :: 0 <= t < m.rows ==> ClearedBelow(tol, Triangulated(tol, m, i).matrix, t)
    decreases m.rows - i
  {
    if i < m.rows {
      TriangularStepClears(tol, m, i);
      if !ZeroRow(tol, SortedFrom(tol, m, i).cells[i]) {
        TriangulatedClears(tol, TriangularStep(tol, m, i), i + 1);
      }
    }
  }

  /** The inner loop of the backward pass of `rref` keeps row i and the
      columns cleared for the rows below it, and leaves exact zeros above
      row i in column `col`. */
  lemma {:induction false} EliminatedAboveClears(tol: real, m: Mat, i: nat, col: nat, j: int)
    requires -1 <= j < i < m.rows && col < m.columns
    requires forall t :: i < t < m.rows ==> ClearedAbove(tol, m, t)
    requires forall k :: j < k < i ==> At(m, k, col) == 0.0
    ensures EliminatedAbove(m, i, col, j).cells[i] == m.cells[i]
    ensures forall t :: i < t < m.rows ==> ClearedAbove(tol, EliminatedAbove(m, i, col, j), t)
    ensures forall k :: 0 <= k < i ==> At(EliminatedAbove(m, i, col, j), k, col) == 0.0
    decreases j + 1
  {
    if j >= 0 {
      var scalar := -m.cells[j][col];
      var next := WithCell(AddedRow(m, j, scalar, i), j, col, 0.0);
      ClearAboveRound(tol, m, i, j, col, scalar, next);
      EliminatedAboveClears(tol, next, i, col, j - 1);
    }
  }

  /** The backward pass of `rref` leaves only exact zeros above the leading
      entry of every nonzero row. */
  lemma {:induction false} BackwardedClears(tol: real, m: Mat, i: int)
    requires -1 <= i < m.rows
    requires forall t :: i < t < m.rows ==> ClearedAbove(tol, m, t)
    ensures forall t :: 0 <= t < m.rows ==> ClearedAbove(tol, Backwarded(tol, m, i), t)
    decreases i + 1
  {
    if i >= 1 {
      if ZeroRow(tol, m.cells[i]) {
        BackwardedClears(tol, m, i - 1);
      } else {
        LeadInside(tol, m.cells[i]);
        var col := LeadIndex(tol, m.cells[i]);
        EliminatedAboveClears(tol, m, i, col, i - 1);
        var next := EliminatedAbove(m, i, col, i - 1);
        assert ClearedAbove(tol, next, i);
        BackwardedClears(tol, next, i - 1);
      }
    }
  }

  /** After `rref` there are only exact zeros above the leading entry of
      every nonzero row. */
  lemma ReducedEchelonClearsAbove(tol: real, m: Mat)
    requires tol > 0.0
    ensures forall t :: 0 <= t < m.rows ==> ClearedAbove(tol, ReducedEchelon(tol, m), t)
  {
    BackwardedClears(tol, Forwarded(tol, m, 0), m.rows - 1);
  }

  // ------------------------------------ matrices the algorithms leave alone

  /** Adding 0 times a row changes nothing. */
  lemma AddedNothing(m: Mat, to: nat, scalar: real, from: nat)
    requires to < m.rows && from < m.rows && scalar == 0.0
    ensures AddedRow(m, to, scalar, from) == m
  {
    Extensionality(AddedRow(m, to, scalar, from), m);
  }

  /** Scaling a row by 1 changes nothing. */
  lemma ScaledByOne(m: Mat, scalar: real, row: nat)
    requires row < m.rows && scalar == 1.0
    ensures ScaledRow(m, scalar, row) == m
  {
    Extensionality(ScaledRow(m, scalar, row), m);
  }

  /** Writing the value a cell already holds changes nothing. */
  lemma SameCell(m: Mat, row: nat, column: nat, entry: real)
    requires row < m.rows && column < m.columns && m.cells[row][column] == entry
    ensures WithCell(m, row, column, entry) == m
  {
    Extensionality(WithCell(m, row, column, entry), m);
  }

  /** Leading indices ascend and below the leading entry of every nonzero
      row there are only exact zeros: the form `upperTriangular` produces. */
  predicate InEchelonForm(tol: real, m: Mat) {
    Sorted(Leads(tol, m, 0)) && forall t :: 0 <= t < m.rows ==> ClearedBelow(tol, m, t)
  }

  /** Clearing a column that already holds exact zeros below row i changes
      nothing. */
  lemma {:induction false} EliminatedBelowZeros(m: Mat, i: nat, lead: nat, pivot: real, j: nat)
    requires i < j <= m.rows && lead < m.columns && pivot != 0.0
    requires forall k :: j <= k < m.rows ==> m.cells[k][lead] == 0.0
    ensures EliminatedBelow(m, i, lead, pivot, j) == m
    decreases m.rows - j
  {
    if j < m.rows {
      AddedNothing(m, j, -m.cells[j][lead] / pivot, i);
      EliminatedBelowZeros(m, i, lead, pivot, j + 1);
    }
  }

  /** `upperTriangular` leaves a matrix already in echelon form as it is
      and swaps no rows. */
  lemma {:induction false} TriangulatedEchelon(tol: real, m: Mat, i: nat)
    requires tol > 0.0 && i <= m.rows && InEchelonForm(tol, m)
    ensures Triangulated(tol, m, i) == Triangulation(m, 0)
    decreases m.rows - i
  {
    if i < m.rows {
      SortedSuffix(tol, m, i);
      SortedHasNoInversions(Leads(tol, m, i));
      SortedFromSorted(tol, m, i);
      var row := m.cells[i];
      if !ZeroRow(tol, row) {
        LeadInside(tol, row);
        LeadEntryNonZero(tol, row);
        var lead := LeadIndex(tol, row);
        assert ClearedBelow(tol, m, i);
        forall k | i + 1 <= k < m.rows
          ensures m.cells[k][lead] == 0.0
        {
          assert At(m, k, lead) == 0.0;
        }
        EliminatedBelowZeros(m, i, lead, LeadEntry(tol, row), i + 1);
        assert TriangularStep(tol, m, i) == m;
        TriangulatedEchelon(tol, m, i + 1);
      }
    }
  }

  /** A square matrix in echelon form has its diagonal product as its
      determinant. */
  lemma DeterminantOfEchelon(tol: real, m: Mat)
    requires tol > 0.0 && m.rows == m.columns && InEchelonForm(tol, m)
    ensures DeterminantOf(tol, m) == DiagonalProduct(m, m.rows)
  {
    TriangulatedEchelon(tol, m, 0);
  }

  /** Row r of the identity has its leading entry in column r, unless the
      tolerance is so large that even 1 counts as zero. */
  lemma IdentityLead(tol: real, size: int, r: nat)
    requires 0.0 < tol <= 1.0 && 0 <= r < size
    ensures LeadIndex(tol, Identity(size).value.cells[r]) == r
  {
    var id := Identity(size).value;
    assert At(id, r, r) == 1.0;
    forall j | 0 <= j < r
      ensures IsZero(tol, id.cells[r][j])
    {
      assert At(id, r, j) == 0.0;
    }
    LeadIndexUnique(tol, id.cells[r], r);
  }

  /** Every row of a matrix whose entries are all 0 or 1 is a zero row when
      the tolerance exceeds 1. */
  lemma ZeroOneRowsAreZero(tol: real, m: Mat)
    requires tol > 1.0
    requires forall r, c :: 0 <= r < m.rows && 0 <= c < m.columns ==> At(m, r, c) == 0.0 || At(m, r, c) == 1.0
    ensures forall r :: 0 <= r < m.rows ==> ZeroRow(tol, m.cells[r])
  {
    forall r, c | 0 <= r < m.rows && 0 <= c < m.columns
      ensures IsZero(tol, m.cells[r][c])
    {
      assert At(m, r, c) == 0.0 || At(m, r, c) == 1.0;
    }
  }

  /** Zero rows only: every leading index is the row length, so they
      ascend, and nothing is cleared below or above. */
  lemma ZeroRowsSorted(tol: real, m: Mat)
    requires forall r :: 0 <= r < m.rows ==> ZeroRow(tol, m.cells[r])
    ensures Sorted(Leads(tol, m, 0))
  {
    forall r | 0 <= r < m.rows
      ensures Leads(tol, m, 0)[r] == m.columns
    {
      ZeroRowHasNoLead(tol, m.cells[r]);
    }
  }

  /** The identity is in echelon form under every positive tolerance. */
  lemma IdentityInEchelonForm(tol: real, size: int)
    requires tol > 0.0 && size > 0
    ensures InEchelonForm(tol, Identity(size).value)
  {
    var id := Identity(size).value;
    if tol > 1.0 {
      ZeroOneRowsAreZero(tol, id);
      ZeroRowsSorted(tol, id);
    } else {
      forall r | 0 <= r < size
        ensures Leads(tol, id, 0)[r] == r
      {
        IdentityLead(tol, size, r);
      }
      forall t | 0 <= t < size
        ensures ClearedBelow(tol, id, t)
      {
        IdentityLead(tol, size, t);
        forall j | t < j < size
          ensures At(id, j, t) == 0.0
        {
        }
      }
    }
  }

  /** The determinant of the identity is 1. */
  lemma DeterminantOfIdentity(tol: real, size: int)
    requires tol > 0.0 && size > 0
    ensures DeterminantOf(tol, Identity(size).value) == 1.0
  {
    IdentityInEchelonForm(tol, size);
    DeterminantOfEchelon(tol, Identity(size).value);
    IdentityDiagonal(size, size);
  }

  /** The determinant of a nonempty zero matrix is 0. */
  lemma DeterminantOfZeros(tol: real, size: nat)
    requires tol > 0.0 && size > 0
    ensures DeterminantOf(tol, Zeros(size, size)) == 0.0
  {
    var z := Zeros(size, size);
    forall r | 0 <= r < size
      ensures ZeroRow(tol, z.cells[r])
    {
      assert forall c :: 0 <= c < size ==> z.cells[r][c] == 0.0;
    }
    ZeroRowsSorted(tol, z);
    DeterminantOfEchelon(tol, z);
    ZeroOnDiagonal(z, size, 0);
  }

  /** Leading indices ascend, every leading entry is exactly 1, and the
      column of a leading entry holds exact zeros in every other row: the
      reduced row echelon form `rref` is meant to produce. */
  predicate InReducedForm(tol: real, m: Mat) {
    && Sorted(Leads(tol, m, 0))
    && (forall t :: 0 <= t < m.rows && !ZeroRow(tol, m.cells[t]) ==> LeadEntry(tol, m.cells[t]) == 1.0)
    && (forall t, j :: 0 <= t < m.rows && 0 <= j < m.rows && j != t && !ZeroRow(tol, m.cells[t]) ==>
          At(m, j, LeadIndex(tol, m.cells[t])) == 0.0)
  }

  /** Subtracting multiples of row i from rows that hold exact zeros in
      column `col` changes nothing. */
  lemma {:induction false} SubtractedBelowZeros(m: Mat, i: nat, col: nat, j: nat)
    requires i < j <= m.rows && col < m.columns
    requires forall k :: j <= k < m.rows ==> m.cells[k][col] == 0.0
    ensures SubtractedBelow(m, i, col, j) == m
    decreases m.rows - j
  {
    if j < m.rows {
      AddedNothing(m, j, -m.cells[j][col], i);
      SubtractedBelowZeros(m, i, col, j + 1);
    }
  }

  /** Clearing column `col` in rows that already hold exact zeros there
      changes nothing. */
  lemma {:induction false} EliminatedAboveZeros(m: Mat, i: nat, col: nat, j: int)
    requires -1 <= j < i < m.rows && col < m.columns
    requires forall k :: 0 <= k <= j ==> m.cells[k][col] == 0.0
    ensures EliminatedAbove(m, i, col, j) == m
    decreases j + 1
  {
    if j >= 0 {
      AddedNothing(m, j, -m.cells[j][col], i);
      SameCell(m, j, col, 0.0);
      EliminatedAboveZeros(m, i, col, j - 1);
    }
  }

  /** The forward pass of `rref` leaves a matrix in reduced form as it is. */
  lemma {:induction false} ForwardedReduced(tol: real, m: Mat, i: nat)
    requires tol > 0.0 && i <= m.rows && InReducedForm(tol, m)
    ensures Forwarded(tol, m, i) == m
    decreases m.rows - i
  {
    if i < m.rows {
      SortedSuffix(tol, m, i);
      SortedFromSorted(tol, m, i);
      var row := m.cells[i];
      if !ZeroRow(tol, row) {
        LeadInside(tol, row);
        var col := LeadIndex(tol, row);
        assert LeadEntry(tol, row) == 1.0;
        ScaledByOne(m, 1.0 / LeadEntry(tol, row), i);
        forall k | i + 1 <= k < m.rows
          ensures m.cells[k][col] == 0.0
        {
          assert At(m, k, col) == 0.0;
        }
        SubtractedBelowZeros(m, i, col, i + 1);
        assert ForwardStep(tol, m, i) == m;
        ForwardedReduced(tol, m, i + 1);
      }
    }
  }

  /** The backward pass of `rref` leaves a matrix in reduced form as it is. */
  lemma {:induction false} BackwardedReduced(tol: real, m: Mat, i: int)
    requires -1 <= i < m.rows && InReducedForm(tol, m)
    ensures Backwarded(tol, m, i) == m
    decreases i + 1
  {
    if i >= 1 {
      var row := m.cells[i];
      if !ZeroRow(tol, row) {
        LeadInside(tol, row);
        var col := LeadIndex(tol, row);
        forall k | 0 <= k <= i - 1
          ensures m.cells[k][col] == 0.0
        {
          assert At(m, k, col) == 0.0;
        }
        EliminatedAboveZeros(m, i, col, i - 1);
      }
      BackwardedReduced(tol, m, i - 1);
    }
  }

  /** `rref` leaves a matrix already in reduced row echelon form as it is. */
  lemma ReducedEchelonOfReduced(tol: real, m: Mat)
    requires tol > 0.0 && InReducedForm(tol, m)
    ensures ReducedEchelon(tol, m) == m
  {
    ForwardedReduced(tol, m, 0);
    BackwardedReduced(tol, m, m.rows - 1);
  }

  /** The identity augmented with itself has 1 in columns r and r + size of
      row r and 0 elsewhere. */
  lemma AugmentedIdentityCell(size: int, r: nat, c: nat)
    requires size > 0 && r < size && c < size + size
    ensures At(Augment(Identity(size).value, Identity(size).value).value, r, c)
         == if c == r || c == r + size then 1.0 else 0.0
  {
    var id := Identity(size).value;
    var a := Augment(id, id).value;
    assert a.cells[r] == id.cells[r] + id.cells[r];
    if c < size {
      assert At(a, r, c) == At(id, r, c);
    } else {
      assert At(a, r, c) == At(id, r, c - size);
    }
  }

  /** Under a tolerance of at most 1, row r of the identity augmented with
      itself has its leading entry 1 in column r. */
  lemma AugmentedIdentityLead(tol: real, size: int, r: nat)
    requires 0.0 < tol <= 1.0 && 0 <= r < size
    ensures var a := Augment(Identity(size).value, Identity(size).value).value;
            !ZeroRow(tol, a.cells[r]) && LeadIndex(tol, a.cells[r]) == r && LeadEntry(tol, a.cells[r]) == 1.0
  {
    var a := Augment(Identity(size).value, Identity(size).value).value;
    AugmentedIdentityCell(size, r, r);
    forall j | 0 <= j < r
      ensures IsZero(tol, a.cells[r][j])
    {
      AugmentedIdentityCell(size, r, j);
    }
    LeadIndexUnique(tol, a.cells[r], r);
    ZeroRowHasNoLead(tol, a.cells[r]);
  }

  /** The identity augmented with itself is in reduced form under every
      positive tolerance. */
  lemma AugmentedIdentityReduced(tol: real, size: int)
    requires tol > 0.0 && size > 0
    ensures InReducedForm(tol, Augment(Identity(size).value, Identity(size).value).value)
  {
    var a := Augment(Identity(size).value, Identity(size).value).value;
    if tol > 1.0 {
      forall r, c | 0 <= r < a.rows && 0 <= c < a.columns
        ensures At(a, r, c) == 0.0 || At(a, r, c) == 1.0
      {
        AugmentedIdentityCell(size, r, c);
      }
      ZeroOneRowsAreZero(tol, a);
      ZeroRowsSorted(tol, a);
    } else {
      forall r | 0 <= r < size
        ensures Leads(tol, a, 0)[r] == r
      {
        AugmentedIdentityLead(tol, size, r);
      }
      forall t, j | 0 <= t < size && 0 <= j < size && j != t
        ensures At(a, j, LeadIndex(tol, a.cells[t])) == 0.0
      {
        AugmentedIdentityLead(tol, size, t);
        AugmentedIdentityCell(size, j, t);
      }
      forall t | 0 <= t < size
        ensures LeadEntry(tol, a.cells[t]) == 1.0
      {
        AugmentedIdentityLead(tol, size, t);
      }
    }
  }

  /** What `inverse` makes of the identity: `rref` leaves the identity
      augmented with itself as it is, its left block passes `isIdentity`,
      and its right block, the answer, is the identity. */
  lemma InverseOfIdentity(tol: real, size: int)
    requires tol > 0.0 && size > 0
    ensures var e := ReducedEchelon(tol, Augment(Identity(size).value, Identity(size).value).value);
            && IsIdentityValue(tol, LeftColumns(e, size).value)
            && RightColumns(e, size) == Identity(size)
  {
    var id := Identity(size).value;
    AugmentedIdentityReduced(tol, size);
    ReducedEchelonOfReduced(tol, Augment(id, id).value);
    AugmentThenLeftColumns(id, id);
    AugmentThenRightColumns(id, id);
    IdentityIsIdentity(tol, size);
  }

  /** The identity has diagonal product 1. */
  lemma {:induction false} IdentityDiagonal(size: int, n: nat)
    requires size > 0 && n <= size
    ensures DiagonalProduct(Identity(size).value, n) == 1.0
  {
    if n > 0 {
      IdentityDiagonal(size, n - 1);
      assert At(Identity(size).value, n - 1, n - 1) == 1.0;
    }
  }
}

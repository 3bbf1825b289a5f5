# Dense matrices and vectors, modelled in Dafny

This project models the dense linear-algebra engine of a small Java library:
the matrix class `DoubleMatrix`, the column-vector class `DoubleVector`,
the index cursor `MatrixIterator` and the tolerance comparator `FloatMath`.
Every entry is an exact `real`, so all arithmetic is exact, and the
comparison tolerance is passed explicitly as `tol`.

The modules are:

- `Wrappers`: the `Result`/`Outcome` types. Each Java exception the core
  throws becomes an `Err` carrying its kind: `IllegalArgument`,
  `IndexOutOfBounds`, `NoSuchElement` or `Arithmetic`.
- `FloatMath`: `isZero` and `areEqual`, plus the `Tolerance` object that
  holds the tolerance and lets a caller replace it.
- `Cursor`: the class `MatrixIterator`. It has one mutable linear `index`
  in [0, rows * columns], from which the row and the column are derived.
- `IndexMath`: the row-major layout. Cell (r, c) lives at flat index
  r * w + c. The offset of a row is written `Offset(r, w)`, defined by
  repeated addition, and proved equal to the product.
- `Matrices`: a matrix as a value (rows, columns, cells row by row). It
  holds the operations that return a fresh matrix in Java: `get`, the
  constructors, `add`, `scale`, `transpose`, `multiply` (both overloads),
  `identity`, `augment` and the two column slices. It also holds the
  specification of `isIdentity` and the facts about dot products.
- `RowOps`: specifications of the elementary row operations and of leading
  indices, the bubble sort of `sortRows` on values (`SortedFrom`), and the
  inversion count it returns.
- `Elimination`: `upperTriangular`, `determinant` and `rref` on values
  (`Triangulated`, `DeterminantOf`, `ReducedEchelon`). Each follows the
  Java loops round by round. The module also proves what they leave
  behind, and works them out on the identity and the zero matrix.
- `MatrixStore`: the class `DoubleMatrix`. It keeps a flat `array<real>`
  whose methods change it in place: `set`, `rowSwap`, `rowScale`, `rowAdd`,
  `sortRows`, `rref`, `upperTriangular`. It also has the loops that only
  read the array: `leadingIndex`, `leadingEntry`, `isZeroRow`, `isIdentity`
  and the diagonal product of `determinant`. Each method is proved against
  the value-level specification of the matrix the array holds (`Value()`).
- `Vectors`: the class `DoubleVector`, with its component array, `get`,
  `set`, `dotProduct` and `squareLength`. The operations that build a new
  vector (`basis`, `add`, `scale`, `subtract`, `crossProduct`, `project`)
  are functions on single-column matrix values.
- `NearZeroLeads`: what the tolerant leading index does to `upperTriangular`,
  `determinant`, `rref` and `inverse`. It works them out on the matrix
  [[0.00005, 1], [0.00005, 100]] at the default tolerance 0.0001.
- `ExactElimination`: the triangularisation `upperTriangular` evidently
  intends. It uses an exact zero test when choosing the pivot, and is proved
  to leave every square matrix upper triangular.

## Model

| member | source | states |
|---|---|---|
| FloatMath.AreEqual | src/FloatMath.java:38-50 | true exactly when every value is within tolerance of the first; always true for zero or one value |
| FloatMath.IsZeroOfNegation | src/FloatMath.java:28 | isZero(-x) holds exactly when isZero(x) does |
| FloatMath.NothingIsZeroBelowZeroTolerance | src/FloatMath.java:28 | with a tolerance <= 0 no value is zero |
| FloatMath.ShortListsAreEqual | src/FloatMath.java:38-50 | zero or one values are always equal |
| FloatMath.AreEqualPairSymmetric | src/FloatMath.java:38-50 | areEqual(x, y) holds exactly when areEqual(y, x) does |
| FloatMath.Tolerance.constructor | src/FloatMath.java:19 | the tolerance starts at 0.0001 |
| FloatMath.Tolerance.SetTolerance | src/FloatMath.java:59 | the tolerance becomes t with no bounds check, and isZero then means \|x\| < t |
| Cursor.MatrixIterator.constructor | src/MatrixIterator.java:36-40 | a new cursor is at index 0 with indices == rows * columns |
| Cursor.MatrixIterator.GetRow | src/MatrixIterator.java:102 | fails with an arithmetic error when there are no columns; otherwise row * columns <= index < (row + 1) * columns |
| Cursor.MatrixIterator.GetColumn | src/MatrixIterator.java:110 | 0 <= column < columns and row * columns + column == index |
| Cursor.MatrixIterator.HasNext | src/MatrixIterator.java:87 | on a valid cursor, true means the cursor names a cell of the grid (columns > 0 and its row is below rows); false means it stands exactly at the end |
| Cursor.MatrixIterator.HasNextRow | src/MatrixIterator.java:94 | on a valid cursor over a grid with columns, true exactly when the row after the cursor's row is still a row of the grid |
| Cursor.MatrixIterator.GetIndex | src/MatrixIterator.java:117 | the position stays in [0, indices] and equals row * columns + column for the row and column the cursor reports |
| IndexMath.RowAfter | src/MatrixIterator.java:94 | index + columns < rows * columns exactly when the row after index / columns is still below rows |
| Cursor.MatrixIterator.Next | src/MatrixIterator.java:49-57 | fails with NoSuchElement, index unchanged, exactly when !hasNext(); otherwise index grows by exactly 1, the new index is returned, and 0 <= index <= indices is kept |
| Cursor.MatrixIterator.NextRow | src/MatrixIterator.java:66-74 | fails exactly when index + columns >= indices; otherwise index becomes (row + 1) * columns, the start of a row that is still inside the grid |
| Cursor.MatrixIterator.Reset | src/MatrixIterator.java:79 | the index becomes 0 and the cursor stays valid |
| IndexMath.OffsetIsProduct | src/DoubleMatrix.java:114-120 | the row offset used throughout the model equals row * columns, the product the Java code computes |
| IndexMath.CellOfIndex | src/MatrixIterator.java:102-110 | dividing the flat index of cell (r, c) by the column count gives back r and the remainder is c |
| Matrices.Get | src/DoubleMatrix.java:88-120 | fails with IllegalArgument exactly when the row or the column is out of range (`invalidIndex`); otherwise returns that cell |
| Matrices.WithCell | src/DoubleMatrix.java:147-153 | setting a cell changes that one cell and no other |
| Matrices.UnflattenFlatten | src/DoubleMatrix.java:24 | storing a matrix row-major in a flat array and reading it back gives the matrix |
| Matrices.FlattenUnflatten | src/DoubleMatrix.java:24 | reading a flat array as a matrix and storing it again gives the array |
| Matrices.Filled | src/DoubleMatrix.java:180-186 | every cell of the new matrix is the given entry |
| Matrices.Zeros | src/DoubleMatrix.java:195-201 | every cell of the new matrix is 0 |
| Matrices.FromEntriesCell | src/DoubleMatrix.java:211-216 | cell (r, c) of the flat-list constructor is value r * columns + c, or 0 when the list is shorter |
| Matrices.FromEntriesKeepsValues | src/DoubleMatrix.java:211-216 | a list of at least rows * columns values is stored as its first rows * columns values |
| Matrices.FromGrid | src/DoubleMatrix.java:223-232 | an empty array, or a row shorter than the first, fails on the array access; otherwise the shape comes from the array and its first row, and cell (i, j) is grid[i][j] |
| Matrices.Add | src/DoubleMatrix.java:241-256 | rejects different shapes; otherwise the shape is kept and each cell is the sum of the two cells |
| Matrices.AddCommutes | src/DoubleMatrix.java:241-256 | add does not depend on the order of its operands |
| Matrices.Scale | src/DoubleMatrix.java:264-276 | the shape is kept and each cell is multiplied by the scalar |
| Matrices.ScaleTwice | src/DoubleMatrix.java:264-276 | scaling by s and then by t is scaling by t * s |
| Matrices.Transpose | src/DoubleMatrix.java:283-295 | the dimensions swap and cell (c, r) of the result is cell (r, c) |
| Matrices.TransposeTwice | src/DoubleMatrix.java:283-295 | transposing twice gives back the matrix |
| Matrices.Multiply | src/DoubleMatrix.java:307-332 | rejects exactly when columns != right.rows; otherwise the result is rows x right.columns with cell (i, j) the dot product of row i and column j |
| Matrices.IdentityTimes | src/DoubleMatrix.java:307-385 | identity(rows) times a matrix is that matrix |
| Matrices.TimesIdentity | src/DoubleMatrix.java:307-385 | a matrix times identity(columns) is that matrix |
| Matrices.MultiplyVector | src/DoubleMatrix.java:343-363 | as written: rejects columns != vector.rows, fails on the array when rows > vector.rows, and otherwise has vector.rows components, the first `rows` being the row dot products and the rest 0 |
| Matrices.MultiplyVectorIntended | src/DoubleMatrix.java:343-363 | rejects exactly when columns != vector.rows; otherwise has one component per row, each the dot product of that row with the vector |
| Matrices.MultiplyVectorIsProduct | src/DoubleMatrix.java:343-363 | the intended matrix-vector product is `multiply` with the vector taken as a one-column matrix |
| Matrices.MultiplyVectorSquare | src/DoubleMatrix.java:343-363 | on a square matrix the code as written and the intended product agree |
| Matrices.MultiplyVectorTallFails | src/DoubleMatrix.java:348 | a 2 x 1 matrix times a one-component vector fails as written, where the intended product exists |
| Matrices.MultiplyVectorWideIsTooLong | src/DoubleMatrix.java:348 | a 1 x 2 matrix times a two-component vector gives two components as written, where the product has one |
| Matrices.Identity | src/DoubleMatrix.java:372-385 | rejects size <= 0; otherwise size x size with 1 on the diagonal and 0 elsewhere |
| Matrices.IdentityIsIdentity | src/DoubleMatrix.java:613-639 | with a positive tolerance, identity(size) passes the isIdentity test |
| Matrices.Augment | src/DoubleMatrix.java:650-678 | rejects different row counts; otherwise has columns + right.columns columns and each row is the row of the receiver followed by the row of `right` |
| Matrices.RightColumns | src/DoubleMatrix.java:690-708 | rejects n <= 0 and n > columns; otherwise keeps the last n columns of every row |
| Matrices.LeftColumns | src/DoubleMatrix.java:720-736 | rejects n <= 0 and n > columns; otherwise keeps the first n columns of every row |
| Matrices.AugmentThenLeftColumns | src/DoubleMatrix.java:650-736 | the left `columns` columns of an augmented matrix are the receiver |
| Matrices.AugmentThenRightColumns | src/DoubleMatrix.java:650-736 | the right `right.columns` columns of an augmented matrix are `right` |
| Matrices.DotSymmetric | src/DoubleVector.java:101-112 | the dot product does not depend on the order of its operands |
| Matrices.DotSelfNonNegative | src/DoubleVector.java:195-206 | the dot product of a vector with itself is >= 0 |
| Matrices.DotScaled | src/DoubleVector.java:101-112 | scaling one operand scales the dot product |
| Matrices.DotSummed | src/DoubleVector.java:101-112 | the dot product distributes over a componentwise sum |
| Matrices.DotResidual | src/DoubleVector.java:270-278 | taking c times b away from a takes c * dot(b, b) away from dot(a, b) |
| RowOps.SwappedRows | src/DoubleMatrix.java:399-409 | rows a and b trade places and every other row is unchanged |
| RowOps.SwapTwice | src/DoubleMatrix.java:399-409 | swapping the same two rows twice restores the matrix |
| RowOps.SwapSymmetric | src/DoubleMatrix.java:399-409 | swapping a with b is swapping b with a |
| RowOps.ScaledRow | src/DoubleMatrix.java:418-422 | only the named row changes, and each of its cells is multiplied by the scalar |
| RowOps.AddedRow | src/DoubleMatrix.java:433-437 | row `to` gains scalar times row `from`; every other row is unchanged |
| RowOps.AddedRowUndone | src/DoubleMatrix.java:433-437 | adding scalar times another row and then -scalar times it restores the matrix |
| RowOps.LeadIndex | src/DoubleMatrix.java:448-460 | every cell before the leading index is zero within tolerance, and the cell at it (if any) is not |
| RowOps.LeadIndexUnique | src/DoubleMatrix.java:448-460 | the leading index is the only position with that property |
| RowOps.ZeroRowHasNoLead | src/DoubleMatrix.java:448-511 | a row is a zero row exactly when its leading index is its length |
| RowOps.LeadEntry | src/DoubleMatrix.java:469-485 | 0 for a zero row; otherwise the cell at the leading index, which is not zero within tolerance |
| RowOps.LeadEntryNonZero | src/DoubleMatrix.java:469-485 | with a positive tolerance the leading entry of a nonzero row is not exactly 0, so dividing by it is defined |
| RowOps.AdjacentSorted | src/DoubleMatrix.java:529-552 | when no neighbouring pair is out of order the leading indices are sorted, which is when the do-while loop of sortRows stops |
| RowOps.SwapRemovesOneInversion | src/DoubleMatrix.java:540-546 | exchanging a neighbouring pair that is out of order removes exactly one inversion |
| RowOps.SortedHasNoInversions | src/DoubleMatrix.java:523-555 | a sorted sequence of leading indices has no inversions |
| RowOps.SortStep | src/DoubleMatrix.java:540-546 | one swap of sortRows keeps the rows above `start`, permutes the rows from `start` on, and removes one inversion |
| RowOps.FirstOutOfOrderSorted | src/DoubleMatrix.java:533-550 | the scan for the first neighbouring pair out of order runs to the end exactly when the leading indices are sorted |
| RowOps.SortPassAt | src/DoubleMatrix.java:533-550 | one pass of the do-while loop changes nothing when the scan runs to the end, which is exactly when the leading indices are sorted, and otherwise swaps the pair it stopped at |
| RowOps.SortPassSteps | src/DoubleMatrix.java:529-552 | a pass over sorted rows changes nothing; a pass over unsorted rows permutes the rows from `start` on, keeps the rows above, and removes exactly one inversion |
| RowOps.SortedFromSorted | src/DoubleMatrix.java:523-555 | sortRows leaves rows whose leading indices are already sorted as they are |
| RowOps.SortedFromSorts | src/DoubleMatrix.java:523-555 | the passes of sortRows, repeated until one changes nothing, keep the rows above `start`, permute the rows from `start` on, and leave their leading indices sorted |
| Elimination.ClearAboveRound | src/DoubleMatrix.java:598-602 | one round of the backward pass of rref changes only row j, leaves 0 in the leading column of row j, and keeps the columns already cleared for the rows below cleared |
| Elimination.ClearBelowRound | src/DoubleMatrix.java:804-805 | one round of upperTriangular changes only row j, makes its cell in the pivot column exactly 0, and keeps the columns cleared for the rows above cleared |
| Elimination.RearrangedKeepsClearedBelow | src/DoubleMatrix.java:794 | sortRows(i) keeps the columns cleared below the rows above i |
| Elimination.ZeroRowsFollow | src/DoubleMatrix.java:575-577 | after sorting, a zero row at `start` means every later row is a zero row, so the loops of rref and upperTriangular may stop there |
| Elimination.Parity | src/DoubleMatrix.java:794 | every row swap flips the sign, so the sign of a swap count is +1 or -1 |
| Elimination.ParityEven | src/DoubleMatrix.java:794 | the sign of a swap count is +1 exactly when the count is even, the test upperTriangular makes on every sortRows count |
| Elimination.ParityAdds | src/DoubleMatrix.java:794 | the signs of two swap counts multiply to the sign of their sum |
| Elimination.ParityStep | src/DoubleMatrix.java:794 | multiplying the running sign by +1 for an even sortRows count and by -1 for an odd one gives the sign of the total swap count |
| Elimination.ZeroOnDiagonal | src/DoubleMatrix.java:830-831 | an exact 0 on the main diagonal makes the diagonal product 0 |
| Elimination.IdentityDiagonal | src/DoubleMatrix.java:830-831 | the identity has diagonal product 1 |
| Elimination.TriangulatedStep | src/DoubleMatrix.java:790-808 | one round of upperTriangular, with its sortRows count and the matrix it leaves, either ends the loop at a zero row or hands on to the rounds after it, adding its count to theirs |
| Elimination.TriangulatedEnd | src/DoubleMatrix.java:790 | after the last row upperTriangular changes nothing and counts no swaps |
| Elimination.EliminatedBelowStep | src/DoubleMatrix.java:804-805 | one pass of the inner loop of upperTriangular adds -m[j][lead] / pivot times row i to row j and moves on to row j + 1 |
| Elimination.EliminatedBelowClears | src/DoubleMatrix.java:804-805 | the inner loop of upperTriangular keeps row i, keeps the columns cleared for the rows above, and leaves exact zeros in the pivot column below row i |
| Elimination.TriangularStepClears | src/DoubleMatrix.java:794-805 | a round of upperTriangular keeps the columns cleared for the rows above i and clears below row i; at a zero row every row is cleared |
| Elimination.TriangulatedClears | src/DoubleMatrix.java:780-808 | upperTriangular leaves only exact zeros below the leading entry of every row. Cells before a lead that are within tolerance of zero are not cleared, so this is not upper-triangular form (NearZeroLeads.SkewedTriangulation) |
| Elimination.TriangulatedEchelon | src/DoubleMatrix.java:780-808 | a matrix in echelon form (sorted leading indices, zeros below every lead) is left as it is, with no swaps |
| Elimination.DeterminantOfEchelon | src/DoubleMatrix.java:818-836 | the determinant of a square matrix in echelon form is its diagonal product |
| Elimination.DeterminantOfIdentity | src/DoubleMatrix.java:818-836 | the determinant of the identity is 1 under every positive tolerance |
| Elimination.DeterminantOfZeros | src/DoubleMatrix.java:818-836 | the determinant of a nonempty square zero matrix is 0 |
| Elimination.SubtractedBelowStep | src/DoubleMatrix.java:586-587 | one pass of the inner forward loop of rref adds -m[j][col] times row i to row j and moves on to row j + 1 |
| Elimination.EliminatedAboveStep | src/DoubleMatrix.java:598-602 | one pass of the inner backward loop of rref adds -m[j][col] times row i to row j, writes 0 into cell (j, col), and moves on to row j - 1 |
| Elimination.EliminatedAboveClears | src/DoubleMatrix.java:598-602 | the inner backward loop of rref keeps row i, keeps the columns cleared for the rows below, and leaves exact zeros in column col above row i |
| Elimination.BackwardedClears | src/DoubleMatrix.java:593-603 | the backward pass of rref leaves only exact zeros above the leading entry of every row |
| Elimination.ReducedEchelonClearsAbove | src/DoubleMatrix.java:561-604 | after rref every row has only exact zeros above its leading entry |
| Elimination.SubtractedBelowZeros | src/DoubleMatrix.java:586-587 | the inner forward loop changes nothing when the column already holds exact zeros below row i |
| Elimination.EliminatedAboveZeros | src/DoubleMatrix.java:598-602 | the inner backward loop changes nothing when the column already holds exact zeros above row i |
| Elimination.EliminatedBelowZeros | src/DoubleMatrix.java:804-805 | the inner loop of upperTriangular changes nothing when the pivot column already holds exact zeros below row i |
| Elimination.ForwardedReduced | src/DoubleMatrix.java:568-588 | the forward pass of rref leaves a matrix in reduced form (sorted leads, leading entries 1, zeros elsewhere in every lead column) as it is |
| Elimination.BackwardedReduced | src/DoubleMatrix.java:593-603 | the backward pass of rref leaves a matrix in reduced form as it is |
| Elimination.ReducedEchelonOfReduced | src/DoubleMatrix.java:561-604 | rref leaves a matrix already in reduced row echelon form as it is |
| Elimination.AugmentedIdentityReduced | src/DoubleMatrix.java:752 | the identity augmented with itself is in reduced form under every positive tolerance |
| Elimination.InverseOfIdentity | src/DoubleMatrix.java:745-763 | for the identity, rref leaves the augmented matrix as it is, its left block passes isIdentity, and the right block returned is the identity |
| MatrixStore.DoubleMatrix.Filled | src/DoubleMatrix.java:180-186 | the new object holds the matrix of rows x columns copies of `entry` |
| MatrixStore.DoubleMatrix.Zeros | src/DoubleMatrix.java:195-201 | the new object holds the zero matrix |
| MatrixStore.DoubleMatrix.FromEntries | src/DoubleMatrix.java:211-216 | the new object holds the flat-list matrix of `Matrices.FromEntries` |
| MatrixStore.DoubleMatrix.Copy | src/DoubleMatrix.java:389 | a fresh object with a fresh array holding the same matrix |
| MatrixStore.DoubleMatrix.Get | src/DoubleMatrix.java:114-120 | reading the flat array at row * columns + column is `get` on the matrix held |
| MatrixStore.DoubleMatrix.GetAt | src/DoubleMatrix.java:100-136 | a cursor built for another shape is rejected with IllegalArgument; an exhausted cursor fails on the array; otherwise returns the cell in the cursor's row and column |
| MatrixStore.DoubleMatrix.Set | src/DoubleMatrix.java:147-153 | fails, with the array unchanged, exactly for a cell outside the grid; otherwise the matrix held changes in that cell only |
| MatrixStore.DoubleMatrix.SetAt | src/DoubleMatrix.java:163-169 | fails like get(iterator), with the array unchanged; otherwise writes the cell in the cursor's row and column only |
| MatrixStore.DoubleMatrix.RowSwap | src/DoubleMatrix.java:399-409 | with both rows in range the matrix held becomes SwappedRows; otherwise the array is unchanged, and the call fails unless there are no columns |
| MatrixStore.DoubleMatrix.RowScale | src/DoubleMatrix.java:418-422 | with the row in range the matrix held becomes ScaledRow; otherwise the array is unchanged, and the call fails on the array unless there are no columns |
| MatrixStore.DoubleMatrix.RowAdd | src/DoubleMatrix.java:433-437 | with both rows in range the matrix held becomes AddedRow; otherwise the array is unchanged, and the call fails on the array unless there are no columns |
| MatrixStore.DoubleMatrix.LeadingIndex | src/DoubleMatrix.java:448-460 | rejects a row out of range; otherwise returns LeadIndex of that row |
| MatrixStore.DoubleMatrix.LeadingEntry | src/DoubleMatrix.java:469-485 | rejects a row out of range; otherwise returns LeadEntry of that row |
| MatrixStore.DoubleMatrix.IsZeroRow | src/DoubleMatrix.java:495-511 | rejects a row out of range; otherwise true exactly when every cell of the row is zero within tolerance |
| MatrixStore.DoubleMatrix.FirstDescent | src/DoubleMatrix.java:533-550 | the scan of one pass of sortRows stops at the first row whose leading index is below that of the row above it, or at `rows` when there is none |
| MatrixStore.DoubleMatrix.BubblePass | src/DoubleMatrix.java:529-552 | one pass reports a swap exactly when the leading indices from `start` on were not sorted, and leaves the matrix SortPass gives |
| MatrixStore.DoubleMatrix.SortRows | src/DoubleMatrix.java:523-555 | rejects a start out of range, leaving the array unchanged; otherwise leaves the matrix SortedFrom gives: the rows above `start` in place, the rows from `start` on permuted so that their leading indices are sorted; returns the number of swaps, which is the number of inversions of the original leading indices |
| MatrixStore.DoubleMatrix.IdentityTestAt | src/DoubleMatrix.java:627-629 | the test at the cursor is areEqual(cell, 1) on the diagonal and isZero(cell) elsewhere |
| MatrixStore.DoubleMatrix.IsIdentity | src/DoubleMatrix.java:613-639 | true exactly when the matrix is square, each diagonal cell equals 1 within tolerance, and each other cell is zero within tolerance |
| MatrixStore.DoubleMatrix.ClearCellAbove | src/DoubleMatrix.java:600-601 | adds -m[j][col] times row i to row j and then writes exactly 0 into cell (j, col) |
| MatrixStore.DoubleMatrix.ClearAbove | src/DoubleMatrix.java:598-602 | the inner backward loop of rref leaves the matrix EliminatedAbove gives for rows i - 1 down to 0 |
| MatrixStore.DoubleMatrix.SubtractBelow | src/DoubleMatrix.java:586-587 | the inner forward loop of rref leaves the matrix SubtractedBelow gives for rows i + 1 on |
| MatrixStore.DoubleMatrix.ForwardRound | src/DoubleMatrix.java:572-587 | one round of the forward pass reports a zero row exactly when row i is one after sorting, and leaves the matrix ForwardStep gives |
| MatrixStore.DoubleMatrix.ForwardPass | src/DoubleMatrix.java:568-588 | the forward pass leaves the matrix Forwarded gives |
| MatrixStore.DoubleMatrix.BackwardPass | src/DoubleMatrix.java:593-603 | the backward pass leaves the matrix Backwarded gives |
| MatrixStore.DoubleMatrix.Rref | src/DoubleMatrix.java:561-604 | the new value is ReducedEchelon of the old one, and every row has only exact zeros above its leading entry |
| MatrixStore.DoubleMatrix.ClearBelow | src/DoubleMatrix.java:804-805 | the inner loop of upperTriangular leaves the matrix EliminatedBelow gives for rows i + 1 on |
| MatrixStore.DoubleMatrix.TriangularRound | src/DoubleMatrix.java:794-805 | one round returns the sortRows count, which is the inversion count of the leading indices from row i on, reports a zero row exactly when row i is one after sorting, and leaves the matrix TriangularStep gives |
| MatrixStore.DoubleMatrix.UpperTriangular | src/DoubleMatrix.java:780-809 | rejects a matrix that is not square and leaves it unchanged; otherwise leaves the matrix Triangulated gives, returns the sign of its total swap count (the sum of the inversion counts of the rounds), and leaves only exact zeros below every leading entry. Upper-triangular form is not promised, because the source misses it (NearZeroLeads.SkewedTriangulation) |
| MatrixStore.DoubleMatrix.MainDiagonalProduct | src/DoubleMatrix.java:828-831 | the loop returns the product of the main-diagonal entries |
| MatrixStore.DoubleMatrix.Determinant | src/DoubleMatrix.java:818-836 | rejects a matrix that is not square; otherwise returns DeterminantOf the receiver, the diagonal product of its Triangulated form times the sign of the swaps, and does not modify the receiver |
| MatrixStore.DoubleMatrix.Inverse | src/DoubleMatrix.java:745-763 | rejects a matrix that is not square, and the 0 x 0 matrix through identity(0); otherwise takes ReducedEchelon of the matrix augmented with the identity, succeeds exactly when its left block passes isIdentity, and returns its right block |
| Vectors.DoubleVector.Zeros | src/DoubleVector.java:54 | the n x 1 zero matrix |
| Vectors.DoubleVector.Filled | src/DoubleVector.java:63 | the n x 1 matrix whose entries are all `entry` |
| Vectors.DoubleVector.FromComponents | src/DoubleVector.java:70 | the n x 1 flat-list matrix of the n values |
| Vectors.DoubleVector.Get | src/DoubleVector.java:25-31 | as written: succeeds exactly for 0 <= index < rows; index == rows fails on the array, and other indices fail with IllegalArgument |
| Vectors.DoubleVector.Set | src/DoubleVector.java:40-46 | as written: like get, and on success only component `index` changes |
| Vectors.DoubleVector.GetChecked | src/DoubleVector.java:25-31 | intended: every index outside [0, rows) is rejected with IllegalArgument |
| Vectors.DoubleVector.SetChecked | src/DoubleVector.java:40-46 | intended: like GetChecked, and on success only component `index` changes |
| Vectors.GetGuardsAgreeInside | src/DoubleVector.java:27 | the guard as written and the intended guard agree on every index except rows, where they fail differently |
| Vectors.DoubleVector.DotProduct | src/DoubleVector.java:101-112 | rejects exactly vectors of different lengths; otherwise returns the sum of the pairwise products |
| Vectors.DoubleVector.SquareLength | src/DoubleVector.java:195-206 | equals the dot product of the vector with itself and is >= 0 |
| Vectors.Basis | src/DoubleVector.java:82-91 | rejects a coordinate outside [0, length); otherwise a vector of that length |
| Vectors.BasisIsIdentityColumn | src/DoubleVector.java:82-91 | the basis vector is the `coordinate` column of identity(length): 1 there and 0 elsewhere |
| Vectors.BasisPicksComponent | src/DoubleVector.java:82-112 | the dot product with a basis vector picks out that component |
| Vectors.Add | src/DoubleVector.java:148-159 | rejects different lengths; otherwise the length is kept |
| Vectors.AddIsMatrixAdd | src/DoubleVector.java:148-159 | vector add is matrix add of the two n x 1 matrices, componentwise |
| Vectors.AddCommutes | src/DoubleVector.java:148-159 | vector add does not depend on the order of its operands |
| Vectors.Scale | src/DoubleVector.java:167-175 | the length is kept |
| Vectors.ScaleIsMatrixScale | src/DoubleVector.java:167-175 | vector scale is matrix scale of the n x 1 matrix, componentwise |
| Vectors.Subtract | src/DoubleVector.java:183-186 | add(subtrahend.scale(-1)) rejects different lengths, and otherwise component i is a[i] - b[i] |
| Vectors.SubtractThenAdd | src/DoubleVector.java:148-186 | adding back what was subtracted gives the original vector |
| Vectors.Cross | src/DoubleVector.java:124-140 | rejects unless both operands have three components; otherwise three components |
| Vectors.CrossComponents | src/DoubleVector.java:132-137 | the index arithmetic with next = (i + 1) % 3 and prev = (i + 2) % 3 gives the textbook cross-product formula |
| Vectors.CrossAnticommutes | src/DoubleVector.java:124-140 | swapping the operands negates the cross product |
| Vectors.CrossOrthogonal | src/DoubleVector.java:124-140 | the cross product is orthogonal to both operands |
| Vectors.Project | src/DoubleVector.java:270-278 | rejects a vector to project onto whose square length is zero within tolerance, and (through dotProduct) vectors of different lengths; otherwise the result has the length of `onto` |
| Vectors.ProjectionResidualOrthogonal | src/DoubleVector.java:270-278 | the vector minus its projection is orthogonal to the vector projected onto |
| Vectors.ProjectIdempotent | src/DoubleVector.java:270-278 | projecting a projection onto the same vector changes nothing |
| Vectors.ProjectionOnLine | src/DoubleVector.java:270-278 | a projection is `onto` scaled |
| Vectors.ProjectionUnique | src/DoubleVector.java:270-278 | the projection is the only multiple of `onto` whose residual is orthogonal to `onto` |
| NearZeroLeads.LeadPastNearZero | src/DoubleMatrix.java:448-460 | a row whose first entry is within tolerance of zero and whose second is not has leading index 1 |
| NearZeroLeads.SkewedTriangulation | src/DoubleMatrix.java:790-808 | on [[0.00005, 1], [0.00005, 100]] at tolerance 0.0001, upperTriangular swaps nothing and leaves -0.00495 below the diagonal. The result is not upper triangular and the determinant computed from it is 0 |
| NearZeroLeads.SkewedDeterminant | src/DoubleMatrix.java:818-836 | determinant on an object holding that matrix returns 0, while the matrix's ad - bc is 0.00495 |
| NearZeroLeads.SkewedForwardPass | src/DoubleMatrix.java:568-588 | the forward pass of rref on that matrix leaves [[0.00005, 1], [1, 0]] |
| NearZeroLeads.SkewedBackwardPass | src/DoubleMatrix.java:593-603 | the backward pass then leaves [[0, 1], [1, 0]] |
| NearZeroLeads.SkewedReducedEchelon | src/DoubleMatrix.java:561-604 | rref leaves [[0, 1], [1, 0]], whose leading indices descend, so the result is not in echelon form |
| NearZeroLeads.SkewedIsInvertible | src/DoubleMatrix.java:739-743 | the matrix is invertible: times (1 / 0.00495) [[100, -1], [-0.00005, 0.00005]] it gives the identity |
| NearZeroLeads.SkewedAugmentedIs | src/DoubleMatrix.java:751 | augmenting the matrix with identity(2) gives [[0.00005, 1, 1, 0], [0.00005, 100, 0, 1]] |
| NearZeroLeads.SkewedAugmentedFirstRound | src/DoubleMatrix.java:568-588 | the first forward round of rref on the augmented matrix leaves row 1 minus 100 times row 0 |
| NearZeroLeads.SkewedAugmentedSecondRound | src/DoubleMatrix.java:568-588 | the second forward round divides row 1 by its leading entry -0.00495 |
| NearZeroLeads.SkewedAugmentedBackward | src/DoubleMatrix.java:593-603 | the backward pass clears column 0 above row 1 |
| NearZeroLeads.SkewedLeftBlock | src/DoubleMatrix.java:758 | the left block of the result has 0 at (0, 0) and fails isIdentity |
| NearZeroLeads.SkewedInverseRejected | src/DoubleMatrix.java:750-759 | rref of the augmented matrix is worked out, and its left block fails isIdentity |
| NearZeroLeads.SkewedInverseFails | src/DoubleMatrix.java:739-763 | inverse on an object holding the invertible matrix fails with IllegalArgument, the exception documented for a matrix that is not invertible |
| NearZeroLeads.SkewedExactDeterminant | src/DoubleMatrix.java:818-836 | the corrected triangularisation leaves [[0.00005, 1], [0, 99]] with no swap, and the corrected determinant is 0.00495 |
| ExactElimination.PivotRow | src/DoubleMatrix.java:448-460 | the first row from k on whose entry in the column is not exactly 0; every row before it holds exactly 0 there |
| ExactElimination.EliminatedBelowClearsColumn | src/DoubleMatrix.java:804-805 | clearing below a nonzero diagonal pivot keeps the earlier columns cleared and clears the pivot column |
| ExactElimination.ExactStepClears | src/DoubleMatrix.java:790-806 | a corrected round keeps the columns before i cleared below the diagonal and clears column i |
| ExactElimination.ExactTriangulatedFrom | src/DoubleMatrix.java:790-808 | the remaining corrected rounds finish an upper triangular matrix |
| ExactElimination.ExactTriangulationIsUpper | src/DoubleMatrix.java:766-772 | with an exact zero test, every square matrix is brought to upper triangular form, as the javadoc promises |

## Left out

- IEEE-754 rounding: entries are exact reals. Properties that hold in the model only because its arithmetic is exact (the cross product's orthogonality, exact zeros after elimination, projection) hold in doubles only approximately.
- `toString` (src/DoubleMatrix.java:36-77): display formatting only.
- src/MatrixDriver.java: a demonstration program with printing. It is not part of this model.
- `length`, `distance`, `normalize` and `direction` (src/DoubleVector.java:214-257) depend on `Math.sqrt` and are not modelled.
- The tolerance: Java keeps it in one static mutable field. Here every comparison takes it as the parameter `tol`, and `FloatMath.Tolerance` models the field and `setTolerance`. Nothing is concurrent.
- `DoubleVector extends DoubleMatrix`: a vector value is a single-column matrix (`Vec`), and the class `Vectors.DoubleVector` is a separate class with its own component array. The matrix methods a vector inherits are not repeated on it.
- The `Iterator<Integer>` interface of `MatrixIterator` is not modelled. `next` and `nextRow` return an `Err(NoSuchElement)` where Java throws.
- MatrixStore.DoubleMatrix.Rref: requires tol > 0. With tol <= 0, Java divides by an exact 0 in `rowScale(1.0 / leadingEntry(i), i)`, and Infinity or NaN has no real counterpart. The same holds for UpperTriangular, TriangularRound, Determinant and Inverse (through rref and upperTriangular).
- Vectors.Project: requires tol > 0, because with tol <= 0 a zero square length passes the guard and Java divides by 0.
- MatrixStore.DoubleMatrix.Rref: ties the new value to ReducedEchelon, mirrors the loops of the Java method exactly, and proves the zeros the backward pass writes and that a matrix already in reduced form is left as it is. The source's result is not always in reduced row echelon form. `leadingIndex` skips entries within tolerance of zero, and no round clears them. On [[0.00005, 1], [0.00005, 100]], rref leaves [[0, 1], [1, 0]], whose leading indices descend (NearZeroLeads.SkewedReducedEchelon; see "## Findings"). Row equivalence to the input is not proved.
- MatrixStore.DoubleMatrix.UpperTriangular: ties the new value and the sign to Triangulated, whose swap count adds up the inversion counts of the rounds. The result need not be upper triangular. Cells within tolerance of zero before a row's lead are never cleared, and on [[0.00005, 1], [0.00005, 100]] the cell below the diagonal ends as -0.00495 (NearZeroLeads.SkewedTriangulation; see "## Findings"). ExactElimination proves upper-triangular form for the corrected elimination. Row equivalence to the input is not proved.
- MatrixStore.DoubleMatrix.Determinant: ties the result to DeterminantOf, proved 1 for the identity, 0 for a zero matrix and the diagonal product for a matrix in echelon form. The result is not the mathematical determinant in general. On [[0.00005, 1], [0.00005, 100]] it is 0, while ad - bc is 0.00495 (NearZeroLeads.SkewedDeterminant). The corrected ExactElimination.ExactDeterminant gives 0.00495 there, but that it equals the determinant of every matrix is not proved either.
- MatrixStore.DoubleMatrix.Inverse: ties the result to ReducedEchelon of the augmented matrix and proves that the identity is its own inverse. The source rejects some invertible matrices. On [[0.00005, 1], [0.00005, 100]], inverse fails with IllegalArgument, although NearZeroLeads.SkewedIsInvertible exhibits the inverse (NearZeroLeads.SkewedInverseFails). This breaks the documented contract at src/DoubleMatrix.java:742. It is not proved that every successful result times the matrix is the identity.
- The cursor-driven fill loops of `add`, `scale`, `transpose`, `multiply`, `identity`, `augment` and the column slices build fresh arrays without touching the receiver. They are modelled as functions on values. The receiver cannot change, because they are pure.
- Integer overflow of `rows * columns` and of the cursor index is not modelled: sizes are unbounded naturals.
- Negative sizes: the constructors take `nat` sizes. Java accepts any `int` (src/DoubleMatrix.java:176-216). With one negative size, allocating or copying `rows * columns` entries throws NegativeArraySizeException. With two, the product is positive and Java builds an object with negative `rows` and `columns`, on which every index check fails.

## Findings

| source | as written | input that shows it | evidently intended | confidence | as-written member | corrected member |
|---|---|---|---|---|---|---|
| src/DoubleMatrix.java:348 | `multiply(DoubleVector)` allocates `vector.rows` components instead of `rows` | a 2 x 1 matrix times a 1-component vector fails on the array; a 1 x 2 matrix times a 2-component vector returns 2 components | one component per row of the matrix, the matrix-vector product | not executed | Matrices.MultiplyVector, Matrices.MultiplyVectorTallFails, Matrices.MultiplyVectorWideIsTooLong | Matrices.MultiplyVectorIntended, Matrices.MultiplyVectorIsProduct |
| src/DoubleVector.java:27 | vector `get`/`set` guard `index > rows` lets `index == rows` through to the array access | `get(rows)` on any vector fails with ArrayIndexOutOfBoundsException, not IllegalArgumentException | the guard `index >= rows`, rejecting every index outside [0, rows) with IllegalArgumentException | not executed | Vectors.DoubleVector.Get, Vectors.DoubleVector.Set, Vectors.GetGuardsAgreeInside | Vectors.DoubleVector.GetChecked, Vectors.DoubleVector.SetChecked |
| src/DoubleMatrix.java:796-805 | `leadingIndex` (:448-460) skips entries within tolerance of zero, and a round clears only its lead column, so those entries stay below the diagonal | [[0.00005, 1], [0.00005, 100]] at tolerance 0.0001: upperTriangular leaves -0.00495 at (1, 0) and determinant returns 0, not 0.00495; rref leaves [[0, 1], [1, 0]]; inverse rejects the invertible matrix | an exact zero test when choosing the pivot, so that every cell below the diagonal is cleared and the diagonal product with the sign of the swaps is the determinant | not executed | NearZeroLeads.SkewedTriangulation, NearZeroLeads.SkewedDeterminant, NearZeroLeads.SkewedReducedEchelon, NearZeroLeads.SkewedInverseFails | ExactElimination.ExactTriangulationIsUpper, NearZeroLeads.SkewedExactDeterminant |

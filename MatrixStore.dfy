/** The in-place side of src/DoubleMatrix.java: a matrix object whose final
    flat array is changed by `set`, by the elementary row operations and by
    the elimination algorithms `rref` and `upperTriangular`. `Value()` is the
    matrix value the array currently holds; each method says how it changes
    that value. */
module MatrixStore {
  import opened Wrappers
  import opened IndexMath
  import opened FloatMath
  import Cursor
  import opened Matrices
  import opened RowOps
  import opened Elimination

  /** A store holding m has cell (r, c) of m at flat index Offset(r, w) + c. */
  lemma HeldIs(e: seq<real>, m: Mat, r: nat, c: nat)
    requires |e| == Offset(m.rows, m.columns) && Held(e, m.rows, m.columns) == m
    requires r < m.rows && c < m.columns
    ensures Offset(r, m.columns) + c < |e| && e[Offset(r, m.columns) + c] == m.cells[r][c]
  {
    HeldCell(e, m.rows, m.columns, r, c);
  }

  /** One round of the `rowScale` loop on the store: writing x * scalar at
      flat index k, the cell of column n of the row holding x, advances the
      partial result by one column. */
  lemma ScaleStoreStep(e: seq<real>, before: Mat, scalar: real, row: nat, n: nat, k: nat, x: real)
    requires |e| == Offset(before.rows, before.columns)
    requires row < before.rows && n < before.columns
    requires Held(e, before.rows, before.columns) == ScaleUpTo(before, scalar, row, n)
    requires k == Offset(row, before.columns) + n < |e| && x == e[k]
    ensures Held(e[k := x * scalar], before.rows, before.columns) == ScaleUpTo(before, scalar, row, n + 1)
  {
    HeldIs(e, ScaleUpTo(before, scalar, row, n), row, n);
    StoreUpdate(e, before.rows, before.columns, row, n, k, x * scalar);
    ScaleRound(before, scalar, row, n, x);
  }

  /** One round of the `rowAdd` loop on the store: writing x + y * scalar at
      flat index k, the cell of column n of row `to` holding x, where the
      cell of column n of row `from` holds y, advances the partial result by
      one column. */
  lemma AddStoreStep(e: seq<real>, before: Mat, to: nat, scalar: real, from: nat, n: nat, k: nat, x: real, y: real)
    requires |e| == Offset(before.rows, before.columns)
    requires to < before.rows && from < before.rows && n < before.columns
    requires Held(e, before.rows, before.columns) == AddUpTo(before, to, scalar, from, n)
    requires k == Offset(to, before.columns) + n < |e| && x == e[k]
    requires Offset(from, before.columns) + n < |e| && y == e[Offset(from, before.columns) + n]
    ensures Held(e[k := x + y * scalar], before.rows, before.columns) == AddUpTo(before, to, scalar, from, n + 1)
  {
    var partial := AddUpTo(before, to, scalar, from, n);
    HeldIs(e, partial, to, n);
    HeldIs(e, partial, from, n);
    StoreUpdate(e, before.rows, before.columns, to, n, k, x + y * scalar);
    AddRound(before, to, scalar, from, n, x, y);
  }

  /** A cell test that holds at every flat index of a grid, read back as
      row index / w and column index % w, holds at every cell. */
  lemma EveryIndexEveryCell(tol: real, m: Mat)
    requires forall k :: 0 < m.columns && 0 <= k < Offset(m.rows, m.columns) ==> IdentityCell(tol, m, k / m.columns, k % m.columns)
    ensures forall i, j :: 0 <= i < m.rows && 0 <= j < m.columns ==> IdentityCell(tol, m, i, j)
  {
    forall i, j | 0 <= i < m.rows && 0 <= j < m.columns
      ensures IdentityCell(tol, m, i, j)
    {
      RowBlockEnd(i, m.rows, m.columns);
      CellOfIndex(i, j, m.columns);
      var k := Offset(i, m.columns) + j;
      assert IdentityCell(tol, m, k / m.columns, k % m.columns);
    }
  }

  class DoubleMatrix {
    const rows: nat
    const columns: nat
    /** The row-major store, cell (r, c) at Offset(r, columns) + c, which is
        r * columns + c. */
    const data: array<real>

    ghost predicate Valid() {
      data.Length == Offset(rows, columns)
    }

    /** The matrix the store currently holds. */
    function Value(): (m: Mat)
      reads data
      requires Valid()
      ensures m.rows == rows && m.columns == columns
    {
      Held(data[..], rows, columns)
    }

    /** `DoubleMatrix(rows, columns, entry)`: every entry is `entry`. */
    constructor Filled(rows: nat, columns: nat, entry: real)
      ensures Valid() && fresh(data)
      ensures Value() == Matrices.Filled(rows, columns, entry)
    {
      OffsetIsProduct(rows, columns);
      this.rows, this.columns := rows, columns;
      data := new real[rows * columns](_ => entry);
      new;
      forall r, c | 0 <= r < rows && 0 <= c < columns
        ensures At(Value(), r, c) == entry
      {
        HeldCell(data[..], rows, columns, r, c);
      }
      Extensionality(Value(), Matrices.Filled(rows, columns, entry));
    }

    /** `DoubleMatrix(rows, columns)`: the zero matrix. */
    constructor Zeros(rows: nat, columns: nat)
      ensures Valid() && fresh(data)
      ensures Value() == Matrices.Zeros(rows, columns)
    {
      OffsetIsProduct(rows, columns);
      this.rows, this.columns := rows, columns;
      data := new real[rows * columns](_ => 0.0);
      new;
      forall r, c | 0 <= r < rows && 0 <= c < columns
        ensures At(Value(), r, c) == 0.0
      {
        HeldCell(data[..], rows, columns, r, c);
      }
      Extensionality(Value(), Matrices.Zeros(rows, columns));
    }

    /** `DoubleMatrix(rows, columns, values...)`: the store is
        `Arrays.copyOf(values, rows * columns)`. */
    constructor FromEntries(rows: nat, columns: nat, values: seq<real>)
      ensures Valid() && fresh(data)
      ensures Value() == Matrices.FromEntries(rows, columns, values)
    {
      OffsetIsProduct(rows, columns);
      this.rows, this.columns := rows, columns;
      data := new real[rows * columns](i requires 0 <= i < rows * columns => CopyOf(values, rows * columns)[i]);
      new;
      assert data[..] == CopyOf(values, rows * columns);
    }

    /** Allocates a matrix object holding the given value: the result of
        `DoubleMatrix(double[][])` (see `Matrices.FromGrid`) and of the
        operations that fill a fresh matrix. */
    constructor FromValue(m: Mat)
      ensures Valid() && fresh(data)
      ensures Value() == m
    {
      var e := Flatten(m);
      rows, columns := m.rows, m.columns;
      data := new real[|e|](i requires 0 <= i < |e| => e[i]);
      new;
      assert data[..] == e;
      UnflattenFlatten(m);
    }

    /** `copy`: `new DoubleMatrix(rows, columns, matrix)`, a duplicate that
        shares no storage with this matrix. */
    method Copy() returns (c: DoubleMatrix)
      requires Valid()
      ensures fresh(c) && fresh(c.data) && c.Valid()
      ensures c.Value() == Value()
    {
      c := new DoubleMatrix.FromEntries(rows, columns, data[..]);
      OffsetIsProduct(rows, columns);
      assert CopyOf(data[..], rows * columns) == data[..];
    }

    /** `get(row, column)`. */
    function Get(row: int, column: int): (r: Result<real>)
      reads data
      requires Valid()
      ensures r == Matrices.Get(Value(), row, column)
    {
      if InvalidIndex(Value(), row, column) then Err(IllegalArgument)
      else
        HeldCell(data[..], rows, columns, row, column);
        OffsetIsProduct(row, columns);
        Ok(data[row * columns + column])
    }

    /** `invalidIndex(iterator)`: the cursor was built for another shape. */
    predicate InvalidCursor(it: Cursor.MatrixIterator)
      reads it
    {
      it.indices != data.Length || it.columns != columns
    }

    /** `get(iterator)`: a cursor built for another shape is rejected; a
        cursor already past the final cell fails on the array. Otherwise it
        reads the cell in the cursor's row and column. */
    function GetAt(it: Cursor.MatrixIterator): (r: Result<real>)
      reads it, data
      requires Valid() && it.Valid()
      ensures r.Ok? <==> !InvalidCursor(it) && it.index < it.indices
      ensures r.Err? ==> r.error == (if InvalidCursor(it) then IllegalArgument else IndexOutOfBounds)
      ensures r.Ok? ==> columns > 0 && r.value == At(Value(), it.index / columns, it.index % columns)
    {
      if InvalidCursor(it) then Err(IllegalArgument)
      else if it.index >= data.Length then Err(IndexOutOfBounds)
      else
        StoreCell(data[..], rows, columns, it.index);
        Ok(data[it.index])
    }

    /** `set(row, column, entry)`: throws exactly for a cell outside the grid,
        and otherwise changes that one cell only. */
    method Set(row: int, column: int, entry: real) returns (r: Outcome)
      requires Valid()
      modifies data
      ensures r.Pass? <==> 0 <= row < rows && 0 <= column < columns
      ensures r.Fail? ==> r.error == IllegalArgument && data[..] == old(data[..])
      ensures r.Pass? ==> Value() == WithCell(old(Value()), row, column, entry)
    {
      if InvalidIndex(Value(), row, column) {
        return Fail(IllegalArgument);
      }
      OffsetIsProduct(row, columns);
      StoreUpdate(data[..], rows, columns, row, column, row * columns + column, entry);
      data[row * columns + column] := entry;
      r := Pass;
    }

    /** `set(iterator, entry)`: fails like `get(iterator)`, and otherwise
        changes the cell in the cursor's row and column only. */
    method SetAt(it: Cursor.MatrixIterator, entry: real) returns (r: Outcome)
      requires Valid() && it.Valid()
      modifies data
      ensures r.Pass? <==> !InvalidCursor(it) && it.index < it.indices
      ensures r.Fail? ==> r.error == (if InvalidCursor(it) then IllegalArgument else IndexOutOfBounds)
      ensures r.Fail? ==> data[..] == old(data[..])
      ensures r.Pass? ==> columns > 0 && it.index / columns < rows &&
                          Value() == WithCell(old(Value()), it.index / columns, it.index % columns, entry)
    {
      if InvalidCursor(it) {
        return Fail(IllegalArgument);
      }
      if it.index >= data.Length {
        return Fail(IndexOutOfBounds);
      }
      IndexOfCell(it.index, rows, columns);
      StoreUpdate(data[..], rows, columns, it.index / columns, it.index % columns, it.index, entry);
      data[it.index] := entry;
      r := Pass;
    }

    // ------------------------------------------------ elementary row operations

    /** `rowSwap(a, b)`: exchanges rows a and b cell by cell through `get` and
        `set`. The first `get` rejects a bad row before anything is written;
        with no columns nothing happens. */
    method RowSwap(a: int, b: int) returns (r: Outcome)
      requires Valid()
      modifies data
      ensures r.Pass? <==> columns == 0 || (0 <= a < rows && 0 <= b < rows)
      ensures r.Fail? ==> r.error == IllegalArgument
      ensures !(0 <= a < rows && 0 <= b < rows) ==> data[..] == old(data[..])
      ensures 0 <= a < rows && 0 <= b < rows ==> Value() == SwappedRows(old(Value()), a, b)
    {
      if !(0 <= a < rows && 0 <= b < rows) {
        return if columns == 0 then Pass else Fail(IllegalArgument);
      }
      ghost var before := Value();
      SwapRoundsBounds(before, a, b);
      var i := 0;
      while i < columns
        invariant 0 <= i <= columns
        invariant Value() == SwapUpTo(before, a, b, i)
      {
        var temp := Get(a, i).value;
        var other := Get(b, i).value;
        var _ := Set(a, i, other);
        var _ := Set(b, i, temp);
        SwapRound(before, a, b, i);
        i := i + 1;
      }
      r := Pass;
    }

    /** `rowScale(scalar, row)`: multiplies the store block of the row by the
        scalar. A bad row fails on the array before anything is written. */
    method RowScale(scalar: real, row: int) returns (r: Outcome)
      requires Valid()
      modifies data
      ensures r.Pass? <==> columns == 0 || 0 <= row < rows
      ensures r.Fail? ==> r.error == IndexOutOfBounds
      ensures !(0 <= row < rows) ==> data[..] == old(data[..])
      ensures 0 <= row < rows ==> Value() == ScaledRow(old(Value()), scalar, row)
    {
      if !(0 <= row < rows) {
        return if columns == 0 then Pass else Fail(IndexOutOfBounds);
      }
      ghost var before := Value();
      ScaleRoundsBounds(before, scalar, row);
      OffsetIsProduct(row, columns);
      OffsetIsProduct(row + 1, columns);
      RowBlockEnd(row, rows, columns);
      var lo, hi := row * columns, (row + 1) * columns;
      var i := lo;
      ghost var n := 0;
      while i < hi
        invariant lo <= i <= hi && n == i - lo
        invariant Value() == ScaleUpTo(before, scalar, row, n)
      {
        ghost var e := data[..];
        var x := data[i];
        ScaleStoreStep(e, before, scalar, row, n, i, x);
        data[i] := x * scalar;
        assert data[..] == e[i := x * scalar];
        i, n := i + 1, n + 1;
      }
      r := Pass;
    }

    /** `rowAdd(to, scalar, from)`: adds `scalar` times the store block of
        row `from` to that of row `to`. A bad row fails on the array before
        anything is written. */
    method RowAdd(to: int, scalar: real, from: int) returns (r: Outcome)
      requires Valid()
      modifies data
      ensures r.Pass? <==> columns == 0 || (0 <= to < rows && 0 <= from < rows)
      ensures r.Fail? ==> r.error == IndexOutOfBounds
      ensures !(0 <= to < rows && 0 <= from < rows) ==> data[..] == old(data[..])
      ensures 0 <= to < rows && 0 <= from < rows ==> Value() == AddedRow(old(Value()), to, scalar, from)
    {
      if !(0 <= to < rows && 0 <= from < rows) {
        return if columns == 0 then Pass else Fail(IndexOutOfBounds);
      }
      ghost var before := Value();
      AddRoundsBounds(before, to, scalar, from);
      OffsetIsProduct(to, columns);
      OffsetIsProduct(from, columns);
      var i := 0;
      while i < columns
        invariant 0 <= i <= columns
        invariant Value() == AddUpTo(before, to, scalar, from, i)
      {
        RowBlockEnd(to, rows, columns);
        RowBlockEnd(from, rows, columns);
        var x, y := data[to * columns + i], data[from * columns + i];
        ghost var e := data[..];
        AddStoreStep(e, before, to, scalar, from, i, to * columns + i, x, y);
        data[to * columns + i] := x + y * scalar;
        assert data[..] == e[to * columns + i := x + y * scalar];
        i := i + 1;
      }
      r := Pass;
    }

    // ------------------------------------------------------- leading entries

    /** `leadingIndex(row)`: the column of the first entry of the row that is
        not zero within tolerance (the row length for a zero row). */
    method LeadingIndex(tol: real, row: int) returns (r: Result<nat>)
      requires Valid()
      ensures r.Ok? <==> 0 <= row < rows
      ensures r.Err? ==> r.error == IllegalArgument
      ensures r.Ok? ==> r.value == LeadIndex(tol, Value().cells[row])
    {
      if row >= rows || row < 0 {
        return Err(IllegalArgument);
      }
      var i := 0;
      while i < columns && IsZero(tol, Get(row, i).value)
        invariant 0 <= i <= columns
        invariant forall j :: 0 <= j < i ==> IsZero(tol, Value().cells[row][j])
      {
        i := i + 1;
      }
      LeadIndexUnique(tol, Value().cells[row], i);
      r := Ok(i);
    }

    /** `leadingEntry(row)`: the first entry of the row that is not zero
        within tolerance, or 0 for a zero row. */
    method LeadingEntry(tol: real, row: int) returns (r: Result<real>)
      requires Valid()
      ensures r.Ok? <==> 0 <= row < rows
      ensures r.Err? ==> r.error == IllegalArgument
      ensures r.Ok? ==> r.value == LeadEntry(tol, Value().cells[row])
    {
      if row >= rows || row < 0 {
        return Err(IllegalArgument);
      }
      var lead := 0.0;
      var i := 0;
      while i < columns
        invariant 0 <= i <= columns
        invariant forall j :: 0 <= j < i ==> IsZero(tol, Value().cells[row][j])
      {
        if !IsZero(tol, Get(row, i).value) {
          lead := Get(row, i).value;
          break;
        }
        i := i + 1;
      }
      LeadIndexUnique(tol, Value().cells[row], i);
      r := Ok(lead);
    }

    /** `isZeroRow(row)`: every entry of the row is zero within tolerance. */
    method IsZeroRow(tol: real, row: int) returns (r: Result<bool>)
      requires Valid()
      ensures r.Ok? <==> 0 <= row < rows
      ensures r.Err? ==> r.error == IllegalArgument
      ensures r.Ok? ==> (r.value <==> ZeroRow(tol, Value().cells[row]))
    {
      if row >= rows || row < 0 {
        return Err(IllegalArgument);
      }
      var zero := true;
      var i := 0;
      while i < columns
        invariant 0 <= i <= columns
        invariant forall j :: 0 <= j < i ==> IsZero(tol, Value().cells[row][j])
      {
        if !IsZero(tol, Get(row, i).value) {
          zero := false;
          assert Value().cells[row][i] == Get(row, i).value;
          break;
        }
        i := i + 1;
      }
      assert zero ==> i == columns;
      r := Ok(zero);
    }

    // --------------------------------------------------------------- sorting

    /** The scan inside one pass of `sortRows(start)`: walks down from row
        `start` comparing each row's leading index with the one above it and
        stops at the first row whose leading index is smaller (the `break`),
        or at `rows` when there is none, in which case the leading indices
        from `start` on ascend. */
    method FirstDescent(tol: real, start: nat) returns (i: nat)
      requires Valid() && start < rows
      ensures start < i <= rows
      ensures i == start + FirstOutOfOrder(Leads(tol, Value(), start), 1)
    {
      ghost var leads := Leads(tol, Value(), start);
      var first := LeadingIndex(tol, start);
      LeadsAt(tol, Value(), start, start);
      var previous := first.value;
      i := start + 1;
      while i < rows
        invariant start + 1 <= i <= rows
        invariant previous == leads[i - 1 - start]
        invariant forall j :: 0 <= j < i - 1 - start ==> leads[j] <= leads[j + 1]
      {
        var next := LeadingIndex(tol, i);
        LeadsAt(tol, Value(), start, i);
        var current := next.value;
        if previous > current {
          FirstOutOfOrderUnique(leads, 1, i - start);
          return;
        }
        previous := current;
        i := i + 1;
      }
      AdjacentSorted(leads);
      FirstOutOfOrderUnique(leads, 1, i - start);
    }

    /** One pass of the do-while loop of `sortRows(start)`: finds the first
        neighbour whose leading index is smaller than the one above it, swaps
        the pair and stops there; it swaps exactly when the leading indices
        from `start` on are out of order. */
    method BubblePass(tol: real, start: nat) returns (swapped: bool)
      requires Valid() && start < rows
      modifies data
      ensures swapped <==> !Sorted(Leads(tol, old(Value()), start))
      ensures Value() == SortPass(tol, old(Value()), start)
    {
      ghost var m := Value();
      var i := FirstDescent(tol, start);
      assert Value() == m;
      SortPassAt(tol, m, start, i);
      if i == rows {
        return false;
      }
      var _ := RowSwap(i, i - 1);
      assert Value() == SwappedRows(m, i, i - 1);
      return true;
    }

    /** `sortRows(start)`: bubble-sorts rows start, start + 1, ... by their
        leading indices, repeating passes until one swaps nothing, and
        returns the number of swaps. The rows above `start` stay put, the
        rows from `start` on are only permuted, and afterwards their leading
        indices ascend. The count is exactly the number of out-of-order pairs
        of leading indices it started from. */
    method SortRows(tol: real, start: int) returns (r: Result<nat>)
      requires Valid()
      modifies data
      ensures r.Ok? <==> 0 <= start < rows
      ensures r.Err? ==> r.error == IllegalArgument && data[..] == old(data[..])
      ensures r.Ok? ==> RowsRearranged(old(Value()), Value(), start)
      ensures r.Ok? ==> Sorted(Leads(tol, Value(), start))
      ensures r.Ok? ==> r.value == Inversions(Leads(tol, old(Value()), start))
      ensures r.Ok? ==> Value() == SortedFrom(tol, old(Value()), start)
    {
      var swaps := 0;
      var unsorted := true;
      if start >= rows || start < 0 {
        return Err(IllegalArgument);
      }
      ghost var initial := Leads(tol, Value(), start);
      while unsorted
        invariant RowsRearranged(old(Value()), Value(), start)
        invariant swaps + Inversions(Leads(tol, Value(), start)) == Inversions(initial)
        invariant !unsorted ==> Sorted(Leads(tol, Value(), start))
        invariant SortedFrom(tol, Value(), start) == SortedFrom(tol, old(Value()), start)
        decreases Inversions(Leads(tol, Value(), start)) + (if unsorted then 1 else 0)
      {
        ghost var before := Value();
        unsorted := BubblePass(tol, start);
        SortedFromPass(tol, before, start);
        SortPassSteps(tol, before, start);
        if unsorted {
          swaps := swaps + 1;
          RowsRearrangedChain(old(Value()), before, Value(), start);
        }
      }
      SortedHasNoInversions(Leads(tol, Value(), start));
      SortedFromSorted(tol, Value(), start);
      r := Ok(swaps);
    }

    // ------------------------------------------------------------- identity

    /** The test `isIdentity` applies at the cursor: `areEqual(get(it), 1)`
        on the main diagonal, `isZero(get(it))` elsewhere. */
    method IdentityTestAt(tol: real, it: Cursor.MatrixIterator) returns (passes: bool)
      requires Valid() && it.Valid() && !InvalidCursor(it) && it.index < it.indices
      ensures columns > 0
      ensures passes <==> IdentityCell(tol, Value(), it.index / columns, it.index % columns)
    {
      var x := GetAt(it).value;
      if it.GetRow().value == it.GetColumn().value {
        passes := AreEqual(tol, [x, 1.0]);
      } else {
        passes := IsZero(tol, x);
      }
    }

    /** `isIdentity`: false for a matrix that is not square; otherwise walks
        the cells with a cursor and stops at the first one that fails the
        test, so the answer is true exactly when every cell passes. */
    method IsIdentity(tol: real) returns (identity: bool)
      requires Valid()
      ensures identity <==> IsIdentityValue(tol, Value())
    {
      if rows != columns {
        return false;
      }
      ghost var m := Value();
      OffsetIsProduct(rows, columns);
      var it := new Cursor.MatrixIterator(rows, columns);
      while it.HasNext()
        invariant it.Valid() && it.rows == rows && it.columns == columns && it.indices == data.Length
        invariant forall k :: 0 <= k < it.index ==> IdentityCell(tol, m, k / columns, k % columns)
        decreases it.indices - it.index
      {
        var passes := IdentityTestAt(tol, it);
        if !passes {
          IndexOfCell(it.index, rows, columns);
          assert !IdentityCell(tol, m, it.index / columns, it.index % columns);
          return false;
        }
        var _ := it.Next();
      }
      EveryIndexEveryCell(tol, m);
      return true;
    }

    // ----------------------------------------------------------- elimination

    /** The body of the inner loop of the backward pass of `rref`: adds
        `-get(j, col)` times row i to row j, then writes an exact 0 into
        (j, col). */
    method ClearCellAbove(i: nat, j: nat, col: nat) returns (ghost scalar: real)
      requires Valid() && j < i < rows && col < columns
      modifies data
      ensures scalar == -old(Value()).cells[j][col]
      ensures Value() == WithCell(AddedRow(old(Value()), j, scalar, i), j, col, 0.0)
    {
      ghost var before := Value();
      var x := Get(j, col).value;
      var _ := RowAdd(j, -x, i);
      ghost var added := Value();
      assert added == AddedRow(before, j, -x, i);
      var _ := Set(j, col, 0.0);
      scalar := -x;
    }

    /** The inner loop of the backward pass of `rref`: for every row j above
        row i, from i - 1 up to 0, adds `-get(j, col)` times row i to row j
        and then writes an exact 0 into (j, col). */
    method ClearAbove(i: nat, col: nat)
      requires Valid() && 0 < i < rows && col < columns
      modifies data
      ensures Value() == EliminatedAbove(old(Value()), i, col, i - 1)
    {
      ghost var target := EliminatedAbove(Value(), i, col, i - 1);
      var j := i - 1;
      while j >= 0
        invariant -1 <= j < i
        invariant EliminatedAbove(Value(), i, col, j) == target
      {
        ghost var before := Value();
        ghost var scalar := ClearCellAbove(i, j, col);
        EliminatedAboveStep(before, i, col, j, before.cells[j][col], Value());
        j := j - 1;
      }
    }

    /** The inner loop of the forward pass of `rref`: for every row j below
        row i adds `-get(j, col)` times row i to row j. */
    method SubtractBelow(i: nat, col: nat)
      requires Valid() && i < rows && col < columns
      modifies data
      ensures Value() == SubtractedBelow(old(Value()), i, col, i + 1)
    {
      ghost var target := SubtractedBelow(Value(), i, col, i + 1);
      var j := i + 1;
      while j < rows
        invariant i < j <= rows
        invariant SubtractedBelow(Value(), i, col, j) == target
      {
        ghost var before := Value();
        var x := Get(j, col).value;
        assert x == before.cells[j][col];
        var scalar := -x;
        var _ := RowAdd(j, scalar, i);
        SubtractedBelowStep(before, i, col, j, x, scalar, Value());
        j := j + 1;
      }
    }

    /** Round i of the forward pass of `rref`: sorts rows i, i + 1, ... by
        leading index and reports whether row i is then a zero row, where
        the pass stops; otherwise divides row i by its leading entry and
        subtracts multiples of it from the rows below. */
    method ForwardRound(tol: real, i: nat) returns (zero: bool)
      requires Valid() && tol > 0.0 && i < rows
      modifies data
      ensures zero <==> ZeroRow(tol, SortedFrom(tol, old(Value()), i).cells[i])
      ensures Value() == ForwardStep(tol, old(Value()), i)
    {
      var _ := SortRows(tol, i);
      ghost var sorted := Value();
      var isZero := IsZeroRow(tol, i);
      zero := isZero.value;
      if zero {
        return;
      }
      var col := LeadingIndex(tol, i);
      var entry := LeadingEntry(tol, i);
      assert Value() == sorted;
      LeadEntryNonZero(tol, sorted.cells[i]);
      LeadInside(tol, sorted.cells[i]);
      var _ := RowScale(1.0 / entry.value, i);
      assert Value() == ScaledRow(sorted, 1.0 / LeadEntry(tol, sorted.cells[i]), i);
      SubtractBelow(i, col.value);
    }

    /** The forward pass of `rref`: rounds from row 0 until the last row or
        the first zero row. */
    method ForwardPass(tol: real)
      requires Valid() && tol > 0.0
      modifies data
      ensures Value() == Forwarded(tol, old(Value()), 0)
    {
      ghost var target := Forwarded(tol, Value(), 0);
      var i := 0;
      while i < rows
        invariant 0 <= i <= rows
        invariant Forwarded(tol, Value(), i) == target
      {
        var zero := ForwardRound(tol, i);
        if zero {
          assert Value() == target;
          break;
        }
        i := i + 1;
      }
      assert Value() == target;
    }

    /** The backward pass of `rref`: from the last row up to row 1, clears
        the leading column of every nonzero row in all rows above it. */
    method BackwardPass(tol: real)
      requires Valid()
      modifies data
      ensures Value() == Backwarded(tol, old(Value()), rows - 1)
    {
      ghost var target := Backwarded(tol, Value(), rows - 1);
      var i := rows - 1;
      while i >= 1
        invariant -1 <= i < rows
        invariant Backwarded(tol, Value(), i) == target
      {
        ghost var before := Value();
        var zero := IsZeroRow(tol, i);
        if !zero.value {
          var col := LeadingIndex(tol, i);
          LeadInside(tol, before.cells[i]);
          ClearAbove(i, col.value);
        }
        i := i - 1;
      }
    }

    /** `rref`: a forward pass that, row by row, sorts the remaining rows by
        leading index, stops at the first zero row, scales the row by the
        reciprocal of its leading entry and subtracts multiples of it from
        the rows below; then a backward pass that clears the leading column
        of every nonzero row in all rows above it. The new value is
        `ReducedEchelon` of the old one, and above the leading entry of every
        nonzero row there are only exact zeros. */
    method Rref(tol: real)
      requires Valid() && tol > 0.0
      modifies data
      ensures Value() == ReducedEchelon(tol, old(Value()))
      ensures forall t :: 0 <= t < rows ==> ClearedAbove(tol, Value(), t)
    {
      ForwardPass(tol);
      BackwardPass(tol);
      ReducedEchelonClearsAbove(tol, old(Value()));
    }

    /** The inner loop of `upperTriangular`: for every row j below row i adds
        `-get(j, lead) / pivot` times row i to row j. */
    method ClearBelow(i: nat, lead: nat, pivot: real)
      requires Valid() && i < rows && lead < columns && pivot != 0.0
      modifies data
      ensures Value() == EliminatedBelow(old(Value()), i, lead, pivot, i + 1)
    {
      ghost var target := EliminatedBelow(Value(), i, lead, pivot, i + 1);
      var j := i + 1;
      while j < rows
        invariant i < j <= rows
        invariant EliminatedBelow(Value(), i, lead, pivot, j) == target
      {
        ghost var before := Value();
        var x := Get(j, lead).value;
        assert x == before.cells[j][lead];
        var scalar := -x / pivot;
        var _ := RowAdd(j, scalar, i);
        EliminatedBelowStep(before, i, lead, pivot, j, x, scalar, Value());
        j := j + 1;
      }
    }

    /** One round of the outer loop of `upperTriangular` for row i: sorts
        rows i, i + 1, ... by leading index, returning the number of swaps,
        and reports whether row i is then a zero row, where the algorithm
        stops; otherwise clears the leading column of row i in every row
        below it, with the leading entry as the pivot. */
    method TriangularRound(tol: real, i: nat) returns (count: nat, zero: bool)
      requires Valid() && tol > 0.0 && i < rows
      modifies data
      ensures count == Inversions(Leads(tol, old(Value()), i))
      ensures zero <==> ZeroRow(tol, SortedFrom(tol, old(Value()), i).cells[i])
      ensures Value() == TriangularStep(tol, old(Value()), i)
    {
      var sorted := SortRows(tol, i);
      count := sorted.value;
      ghost var arranged := Value();
      var isZero := IsZeroRow(tol, i);
      zero := isZero.value;
      if zero {
        return;
      }
      var lead := LeadingIndex(tol, i);
      var entry := LeadingEntry(tol, i);
      assert Value() == arranged;
      LeadEntryNonZero(tol, arranged.cells[i]);
      LeadInside(tol, arranged.cells[i]);
      ClearBelow(i, lead.value, entry.value);
    }

    /** `upperTriangular`: rejects a matrix that is not square, leaving it
        unchanged. Otherwise, row by row, sorts the remaining rows by leading
        index, stops at the first zero row and clears the leading column of
        the row in every row below it. The new value is the matrix
        `Triangulated` gives, below the leading entry of every nonzero row
        there are only exact zeros, and the result is +1 when the `sortRows`
        calls swapped rows an even number of times and -1 when odd. */
    method UpperTriangular(tol: real) returns (r: Result<real>)
      requires Valid() && tol > 0.0
      modifies data
      ensures r.Err? <==> rows != columns
      ensures r.Err? ==> r.error == IllegalArgument && data[..] == old(data[..])
      ensures r.Ok? ==> Value() == Triangulated(tol, old(Value()), 0).matrix
      ensures r.Ok? ==> r.value == Parity(Triangulated(tol, old(Value()), 0).swaps)
      ensures r.Ok? ==> forall t :: 0 <= t < rows ==> ClearedBelow(tol, Value(), t)
    {
      if rows != columns {
        return Err(IllegalArgument);
      }
      ghost var target := Triangulated(tol, Value(), 0);
      TriangulatedClears(tol, Value(), 0);
      ghost var swaps: nat := 0;
      var sign := 1.0;
      var i := 0;
      while i < rows
        invariant 0 <= i <= rows
        invariant sign == Parity(swaps)
        invariant Triangulated(tol, Value(), i).matrix == target.matrix
        invariant swaps + Triangulated(tol, Value(), i).swaps == target.swaps
      {
        ghost var before := Value();
        var count, zero := TriangularRound(tol, i);
        TriangulatedStep(tol, before, i, count, zero, Value());
        ghost var previous, counted := sign, swaps;
        sign := sign * (if count % 2 == 0 then 1.0 else -1.0);
        swaps := swaps + count;
        ParityStep(previous, counted, count, sign, swaps);
        if zero {
          assert Value() == target.matrix && swaps == target.swaps;
          break;
        }
        i := i + 1;
      }
      TriangulatedEnd(tol, Value());
      assert Value() == target.matrix && swaps == target.swaps;
      r := Ok(sign);
    }

    /** The loop of `determinant` that multiplies the entries of the main
        diagonal, top to bottom. */
    method MainDiagonalProduct() returns (product: real)
      requires Valid() && rows <= columns
      ensures product == DiagonalProduct(Value(), rows)
    {
      ghost var m := Value();
      product := 1.0;
      var i := 0;
      while i < rows
        invariant 0 <= i <= rows
        invariant product == DiagonalProduct(m, i)
      {
        var diagonal := Get(i, i).value;
        assert diagonal == At(m, i, i);
        DiagonalProductStep(m, i, diagonal);
        product := product * diagonal;
        i := i + 1;
      }
    }

    /** `determinant`: brings a copy of the matrix to upper triangular form
        and multiplies the entries of its main diagonal, times the sign of
        the swaps: `DeterminantOf` the matrix. This matrix itself is not
        changed; a matrix that is not square is rejected. */
    method Determinant(tol: real) returns (r: Result<real>)
      requires Valid() && tol > 0.0
      ensures r.Err? <==> rows != columns
      ensures r.Err? ==> r.error == IllegalArgument
      ensures r.Ok? ==> r.value == DeterminantOf(tol, Value())
      ensures r.Ok? ==> forall t :: 0 <= t < rows ==> ClearedBelow(tol, Triangulated(tol, Value(), 0).matrix, t)
    {
      ghost var t := Triangulated(tol, Value(), 0);
      var test := Copy();
      var sign := test.UpperTriangular(tol);
      if sign.Err? {
        return Err(sign.error);
      }
      assert test.Value() == t.matrix && sign.value == Parity(t.swaps);
      var determinant := test.MainDiagonalProduct();
      r := Ok(WithSign(determinant, sign.value));
    }

    /** `inverse`: rejects a matrix that is not square, and the empty matrix,
        for which there is no identity to augment with. Otherwise augments
        the matrix with the identity, brings that to reduced row echelon
        form with `rref`, and rejects the matrix when the left block is not
        the identity within tolerance; the answer is the right block. */
    method Inverse(tol: real) returns (r: Result<Mat>)
      requires Valid() && tol > 0.0
      ensures rows != columns || columns == 0 ==> r == Err(IllegalArgument)
      ensures r.Err? ==> r.error == IllegalArgument
      ensures rows == columns > 0 ==>
                var reduced := ReducedEchelon(tol, Augment(Value(), Identity(columns).value).value);
                && (forall t :: 0 <= t < rows ==> ClearedAbove(tol, reduced, t))
                && (r.Ok? <==> IsIdentityValue(tol, LeftColumns(reduced, columns).value))
                && (r.Ok? ==> r.value == RightColumns(reduced, columns).value)
    {
      if rows != columns {
        return Err(IllegalArgument);
      }
      var id := Identity(columns);
      if id.Err? {
        return Err(IllegalArgument);
      }
      var augmented := new DoubleMatrix.FromValue(Augment(Value(), id.value).value);
      augmented.Rref(tol);
      var echelon := augmented.Value();
      var left := new DoubleMatrix.FromValue(LeftColumns(echelon, columns).value);
      var identity := left.IsIdentity(tol);
      if !identity {
        return Err(IllegalArgument);
      }
      r := Ok(RightColumns(echelon, columns).value);
    }
  }
}

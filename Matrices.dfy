/** The value side of src/DoubleMatrix.java: a matrix is its two dimensions
    and its cells, row by row. Entries are exact reals. The Java object keeps
    the cells in one flat row-major array, cell (r, c) at r * columns + c;
    `Flatten` and `Unflatten` convert between the two layouts. The operations
    that return a new matrix in Java (add, scale, transpose, multiply,
    identity, augment, the column slices) are functions on these values; the
    operations that change a matrix in place are in module MatrixStore. */
module Matrices {
  import opened Wrappers
  import opened IndexMath
  import opened FloatMath

  datatype Matrix = Matrix(rows: nat, columns: nat, cells: seq<seq<real>>)

  /** `rows` rows of `columns` cells each. */
  predicate Shaped(rows: nat, columns: nat, cells: seq<seq<real>>) {
    |cells| == rows && forall r :: 0 <= r < rows ==> |cells[r]| == columns
  }

  type Mat = m: Matrix | Shaped(m.rows, m.columns, m.cells) witness Matrix(0, 0, [])

  /** A vector is a matrix with a single column; its length is its row count. */
  type Vec = v: Mat | v.columns == 1 witness Matrix(0, 1, [])

  /** The entry at row r, column c (0 outside the grid, where no caller looks). */
  function At(m: Mat, r: int, c: int): real {
    if 0 <= r < m.rows && 0 <= c < m.columns then m.cells[r][c] else 0.0
  }

  /** The matrix of the given shape whose cell (r, c) is f(r, c). */
  function Build(rows: nat, cols: nat, f: (nat, nat) -> real): (m: Mat)
    ensures m.rows == rows && m.columns == cols
    ensures forall r, c :: 0 <= r < rows && 0 <= c < cols ==> At(m, r, c) == f(r, c)
  {
    Matrix(rows, cols, seq(rows, r requires 0 <= r < rows => seq(cols, c requires 0 <= c < cols => f(r, c))))
  }

  /** Two matrices of one shape with the same cells are the same matrix. */
  lemma Extensionality(a: Mat, b: Mat)
    requires a.rows == b.rows && a.columns == b.columns
    requires forall r, c :: 0 <= r < a.rows && 0 <= c < a.columns ==> At(a, r, c) == At(b, r, c)
    ensures a == b
  {
    forall r | 0 <= r < a.rows
      ensures a.cells[r] == b.cells[r]
    {
      assert forall c :: 0 <= c < a.columns ==> a.cells[r][c] == At(a, r, c);
    }
  }

  /** Row r, left to right. */
  function Row(m: Mat, r: int): (s: seq<real>)
    ensures |s| == m.columns && forall c :: 0 <= c < m.columns ==> s[c] == At(m, r, c)
  {
    seq(m.columns, c => At(m, r, c))
  }

  /** Column c, top to bottom. */
  function Column(m: Mat, c: int): (s: seq<real>)
    ensures |s| == m.rows && forall r :: 0 <= r < m.rows ==> s[r] == At(m, r, c)
  {
    seq(m.rows, r => At(m, r, c))
  }

  /** Sum of the pairwise products, accumulated from the first pair on. */
  function Dot(a: seq<real>, b: seq<real>): real
    requires |a| == |b|
  {
    if |a| == 0 then 0.0 else Dot(a[..|a| - 1], b[..|b| - 1]) + a[|a| - 1] * b[|b| - 1]
  }

  // ------------------------------------------------------ the flat layout

  /** The matrix held by a row-major store of `rows` rows of `w` entries:
      row r is the block of w entries starting at Offset(r, w). */
  function Held(e: seq<real>, rows: nat, w: nat): (m: Mat)
    requires |e| == Offset(rows, w)
    ensures m.rows == rows && m.columns == w
    ensures forall r :: 0 <= r < rows ==> m.cells[r] == StoreRow(e, rows, w, r)
  {
    Matrix(rows, w, seq(rows, r requires 0 <= r < rows => StoreRow(e, rows, w, r)))
  }

  /** The block of row r of a store. */
  function StoreRow(e: seq<real>, rows: nat, w: nat, r: nat): (s: seq<real>)
    requires |e| == Offset(rows, w) && r < rows
    ensures |s| == w
    ensures forall c {:trigger s[c]} :: 0 <= c < w ==> Offset(r, w) + c < |e| && s[c] == e[Offset(r, w) + c]
  {
    RowBlockEnd(r, rows, w);
    var o := Offset(r, w);
    seq(w, c requires 0 <= c < w => e[o + c])
  }

  /** Cell (r, c) of the matrix a store holds is entry Offset(r, w) + c. */
  lemma HeldCell(e: seq<real>, rows: nat, w: nat, r: nat, c: nat)
    requires |e| == Offset(rows, w) && r < rows && c < w
    ensures Offset(r, w) + c < |e|
    ensures Held(e, rows, w).cells[r][c] == e[Offset(r, w) + c]
  {
    assert Held(e, rows, w).cells[r][c] == StoreRow(e, rows, w, r)[c];
  }

  /** The rows of `cells`, each of length w, laid end to end. */
  function FlattenRows(cells: seq<seq<real>>, w: nat): (e: seq<real>)
    requires forall r :: 0 <= r < |cells| ==> |cells[r]| == w
    ensures |e| == Offset(|cells|, w)
  {
    if |cells| == 0 then [] else FlattenRows(cells[..|cells| - 1], w) + cells[|cells| - 1]
  }

  /** The row-major store of a matrix. */
  function Flatten(m: Mat): (e: seq<real>)
    ensures |e| == Offset(m.rows, m.columns)
  {
    FlattenRows(m.cells, m.columns)
  }

  /** Cell (r, c) of a matrix is entry Offset(r, columns) + c of its store. */
  lemma {:induction false} FlattenCell(m: Mat, r: nat, c: nat)
    requires r < m.rows && c < m.columns
    ensures Offset(r, m.columns) + c < Offset(m.rows, m.columns)
    ensures Flatten(m)[Offset(r, m.columns) + c] == m.cells[r][c]
    decreases m.rows
  {
    var n, w := m.rows, m.columns;
    RowBlockEnd(r, n, w);
    if r < n - 1 {
      var p := Matrix(n - 1, w, m.cells[..n - 1]);
      RowBlockEnd(r, n - 1, w);
      FlattenCell(p, r, c);
    }
  }

  /** Storing a matrix flat and reading it back gives the matrix. */
  lemma UnflattenFlatten(m: Mat)
    ensures Held(Flatten(m), m.rows, m.columns) == m
  {
    var a := Held(Flatten(m), m.rows, m.columns);
    forall r | 0 <= r < m.rows
      ensures a.cells[r] == m.cells[r]
    {
      forall c | 0 <= c < m.columns
        ensures a.cells[r][c] == m.cells[r][c]
      {
        HeldCell(Flatten(m), m.rows, m.columns, r, c);
        FlattenCell(m, r, c);
      }
    }
    assert a.cells == m.cells;
  }

  /** Flat index i of a store is cell (i / w, i % w) of the matrix it holds. */
  lemma StoreCell(e: seq<real>, rows: nat, w: nat, i: nat)
    requires |e| == Offset(rows, w) && i < |e|
    ensures w > 0 && i / w < rows && i % w < w
    ensures e[i] == At(Held(e, rows, w), i / w, i % w)
  {
    IndexOfCell(i, rows, w);
    HeldCell(e, rows, w, i / w, i % w);
  }

  /** Reading a store as a matrix and storing it flat gives the store. */
  lemma FlattenUnflatten(e: seq<real>, rows: nat, w: nat)
    requires |e| == Offset(rows, w)
    ensures Flatten(Held(e, rows, w)) == e
  {
    var m := Held(e, rows, w);
    var f := Flatten(m);
    forall i | 0 <= i < |e|
      ensures f[i] == e[i]
    {
      IndexOfCell(i, rows, w);
      var r, c := i / w, i % w;
      HeldCell(e, rows, w, r, c);
      FlattenCell(m, r, c);
    }
  }

  // ---------------------------------------------------------------- access

  /** `invalidIndex(row, column)`. */
  predicate InvalidIndex(m: Mat, row: int, column: int) {
    column >= m.columns || row >= m.rows || column < 0 || row < 0
  }

  /** `get(row, column)`: throws exactly for a cell outside the grid, and
      otherwise reads the cell. */
  function Get(m: Mat, row: int, column: int): (r: Result<real>)
    ensures r.Ok? <==> 0 <= row < m.rows && 0 <= column < m.columns
    ensures r.Err? ==> r.error == IllegalArgument
    ensures r.Ok? ==> r.value == At(m, row, column)
  {
    if InvalidIndex(m, row, column) then Err(IllegalArgument) else Ok(m.cells[row][column])
  }

  /** `set(row, column, entry)` on a value: that one cell becomes `entry`
      and every other cell keeps its value. */
  function WithCell(m: Mat, row: nat, column: nat, entry: real): (s: Mat)
    requires row < m.rows && column < m.columns
    ensures s.rows == m.rows && s.columns == m.columns
    ensures forall r, c :: 0 <= r < m.rows && 0 <= c < m.columns ==>
              At(s, r, c) == if r == row && c == column then entry else At(m, r, c)
  {
    Matrix(m.rows, m.columns, m.cells[row := m.cells[row][column := entry]])
  }

  /** Writing flat index k = Offset(row, w) + column of a store writes that
      one cell of the matrix it holds. */
  lemma StoreUpdate(e: seq<real>, rows: nat, w: nat, row: nat, column: nat, k: nat, entry: real)
    requires |e| == Offset(rows, w) && row < rows && column < w
    requires k == Offset(row, w) + column
    ensures k < |e|
    ensures Held(e[k := entry], rows, w) == WithCell(Held(e, rows, w), row, column, entry)
  {
    RowBlockEnd(row, rows, w);
    var a := Held(e[k := entry], rows, w);
    var b := WithCell(Held(e, rows, w), row, column, entry);
    forall r, c | 0 <= r < rows && 0 <= c < w
      ensures At(a, r, c) == At(b, r, c)
    {
      CellIndexInjective(r, c, row, column, w);
      HeldCell(e[k := entry], rows, w, r, c);
      HeldCell(e, rows, w, r, c);
    }
    Extensionality(a, b);
  }

  // ---------------------------------------------------------- construction

  /** `DoubleMatrix(rows, columns, entry)`: every entry is `entry`. */
  function Filled(rows: nat, columns: nat, entry: real): (m: Mat)
    ensures m.rows == rows && m.columns == columns
    ensures forall r, c :: 0 <= r < rows && 0 <= c < columns ==> At(m, r, c) == entry
  {
    Build(rows, columns, (r, c) => entry)
  }

  /** `DoubleMatrix(rows, columns)`: the zero matrix. */
  function Zeros(rows: nat, columns: nat): (m: Mat)
    ensures m.rows == rows && m.columns == columns
    ensures forall r, c :: 0 <= r < rows && 0 <= c < columns ==> At(m, r, c) == 0.0
  {
    Filled(rows, columns, 0.0)
  }

  /** `Arrays.copyOf(values, n)`: the first n values, padded with zeros. */
  function CopyOf(values: seq<real>, n: nat): (p: seq<real>)
    ensures |p| == n
  {
    seq(n, i requires 0 <= i < n => if i < |values| then values[i] else 0.0)
  }

  /** `DoubleMatrix(rows, columns, values...)`: the store is `copyOf(values,
      rows * columns)`, read row by row. */
  function FromEntries(rows: nat, columns: nat, values: seq<real>): (m: Mat)
    ensures m.rows == rows && m.columns == columns
  {
    OffsetIsProduct(rows, columns);
    Held(CopyOf(values, rows * columns), rows, columns)
  }

  /** Cell (r, c) of the flat-list constructor is value r * columns + c, or 0
      when the list stops before it. */
  lemma FromEntriesCell(rows: nat, columns: nat, values: seq<real>, r: nat, c: nat)
    requires r < rows && c < columns
    ensures At(FromEntries(rows, columns, values), r, c)
         == if r * columns + c < |values| then values[r * columns + c] else 0.0
  {
    OffsetIsProduct(r, columns);
    OffsetIsProduct(rows, columns);
    HeldCell(CopyOf(values, rows * columns), rows, columns, r, c);
  }

  /** A list of at least rows * columns values is stored as its first
      rows * columns values. */
  lemma FromEntriesKeepsValues(rows: nat, columns: nat, values: seq<real>)
    requires |values| >= rows * columns
    ensures Flatten(FromEntries(rows, columns, values)) == values[..rows * columns]
  {
    OffsetIsProduct(rows, columns);
    FlattenUnflatten(CopyOf(values, rows * columns), rows, columns);
    assert CopyOf(values, rows * columns) == values[..rows * columns];
  }

  /** Entry (r, c) of a 2-D array, 0 where the array has no such entry. */
  function GridAt(grid: seq<seq<real>>, r: nat, c: nat): real {
    if r < |grid| && c < |grid[r]| then grid[r][c] else 0.0
  }

  /** `DoubleMatrix(double[][])`: the shape comes from the array and its first
      row; an empty array, or a row shorter than the first, fails on the
      array access. Extra entries in longer rows are ignored. */
  function FromGrid(grid: seq<seq<real>>): (r: Result<Mat>)
    ensures r.Ok? <==> |grid| > 0 && forall i :: 0 <= i < |grid| ==> |grid[i]| >= |grid[0]|
    ensures r.Err? ==> r.error == IndexOutOfBounds
    ensures r.Ok? ==> r.value.rows == |grid| && r.value.columns == |grid[0]|
    ensures r.Ok? ==> forall i, j :: 0 <= i < |grid| && 0 <= j < |grid[0]| ==> At(r.value, i, j) == grid[i][j]
  {
    if |grid| == 0 then Err(IndexOutOfBounds)
    else if exists i :: 0 <= i < |grid| && |grid[i]| < |grid[0]| then Err(IndexOutOfBounds)
    else Ok(Build(|grid|, |grid[0]|, (i: nat, j: nat) => GridAt(grid, i, j)))
  }

  // ------------------------------------------------------------ arithmetic

  /** `add`: defined only for equal shapes; the sum is taken cell by cell. */
  function Add(a: Mat, b: Mat): (r: Result<Mat>)
    ensures r.Ok? <==> a.rows == b.rows && a.columns == b.columns
    ensures r.Err? ==> r.error == IllegalArgument
    ensures r.Ok? ==> r.value.rows == a.rows && r.value.columns == a.columns
    ensures r.Ok? ==> forall i, j :: 0 <= i < a.rows && 0 <= j < a.columns ==>
                        At(r.value, i, j) == At(a, i, j) + At(b, i, j)
  {
    if a.rows != b.rows || a.columns != b.columns then Err(IllegalArgument)
    else Ok(Build(a.rows, a.columns, (i, j) => At(a, i, j) + At(b, i, j)))
  }

  /** `scale`: every cell multiplied by the scalar; the shape is kept. */
  function Scale(m: Mat, scalar: real): (s: Mat)
    ensures s.rows == m.rows && s.columns == m.columns
    ensures forall i, j :: 0 <= i < m.rows && 0 <= j < m.columns ==> At(s, i, j) == scalar * At(m, i, j)
  {
    Build(m.rows, m.columns, (i, j) => scalar * At(m, i, j))
  }

  /** `transpose`: the dimensions swap and cell (c, r) takes cell (r, c). */
  function Transpose(m: Mat): (t: Mat)
    ensures t.rows == m.columns && t.columns == m.rows
    ensures forall i, j :: 0 <= i < m.rows && 0 <= j < m.columns ==> At(t, j, i) == At(m, i, j)
  {
    Build(m.columns, m.rows, (i, j) => At(m, j, i))
  }

  /** Transposing twice gives back the matrix. */
  lemma TransposeTwice(m: Mat)
    ensures Transpose(Transpose(m)) == m
  {
    Extensionality(Transpose(Transpose(m)), m);
  }

  /** Scaling twice is scaling once by the product of the scalars. */
  lemma ScaleTwice(m: Mat, s: real, t: real)
    ensures Scale(Scale(m, s), t) == Scale(m, t * s)
  {
    var lhs, rhs := Scale(Scale(m, s), t), Scale(m, t * s);
    forall i, j | 0 <= i < m.rows && 0 <= j < m.columns
      ensures At(lhs, i, j) == At(rhs, i, j)
    {
      var x := At(m, i, j);
      assert At(Scale(m, s), i, j) == s * x;
      assert At(lhs, i, j) == t * (s * x);
      assert At(rhs, i, j) == (t * s) * x;
    }
    Extensionality(lhs, rhs);
  }

  /** `add` does not depend on the order of its operands. */
  lemma AddCommutes(a: Mat, b: Mat)
    ensures Add(a, b) == Add(b, a)
  {
    if Add(a, b).Ok? {
      Extensionality(Add(a, b).value, Add(b, a).value);
    }
  }

  /** `multiply`: the left column count must equal the right row count; the
      product has the left row count and the right column count, and cell
      (i, j) is the dot product of row i of the left with column j of the
      right. */
  function Multiply(m: Mat, right: Mat): (r: Result<Mat>)
    ensures r.Ok? <==> m.columns == right.rows
    ensures r.Err? ==> r.error == IllegalArgument
    ensures r.Ok? ==> r.value.rows == m.rows && r.value.columns == right.columns
    ensures r.Ok? ==> forall i, j :: 0 <= i < m.rows && 0 <= j < right.columns ==>
                        At(r.value, i, j) == Dot(Row(m, i), Column(right, j))
  {
    if m.columns != right.rows then Err(IllegalArgument)
    else Ok(Build(m.rows, right.columns, (i, j) => Dot(Row(m, i), Column(right, j))))
  }

  /** `identity(size)`: rejects a size that is not positive; 1 on the main
      diagonal and 0 elsewhere. */
  function Identity(size: int): (r: Result<Mat>)
    ensures r.Ok? <==> size > 0
    ensures r.Err? ==> r.error == IllegalArgument
    ensures r.Ok? ==> r.value.rows == size && r.value.columns == size
    ensures r.Ok? ==> forall i, j :: 0 <= i < size && 0 <= j < size ==>
                        At(r.value, i, j) == if i == j then 1.0 else 0.0
  {
    if size <= 0 then Err(IllegalArgument)
    else Ok(Build(size, size, (i, j) => if i == j then 1.0 else 0.0))
  }

  /** Multiplying by the identity on the left gives back the matrix. */
  lemma IdentityTimes(m: Mat)
    requires m.rows > 0
    ensures Identity(m.rows).Ok?
    ensures Multiply(Identity(m.rows).value, m) == Ok(m)
  {
    var id := Identity(m.rows).value;
    var p := Multiply(id, m).value;
    forall i, j | 0 <= i < m.rows && 0 <= j < m.columns
      ensures At(p, i, j) == At(m, i, j)
    {
      DotUnit(Row(id, i), Column(m, j), i);
    }
    Extensionality(p, m);
  }

  /** Multiplying by the identity on the right gives back the matrix. */
  lemma TimesIdentity(m: Mat)
    requires m.columns > 0
    ensures Identity(m.columns).Ok?
    ensures Multiply(m, Identity(m.columns).value) == Ok(m)
  {
    var id := Identity(m.columns).value;
    var p := Multiply(m, id).value;
    forall i, j | 0 <= i < m.rows && 0 <= j < m.columns
      ensures At(p, i, j) == At(m, i, j)
    {
      DotSymmetric(Row(m, i), Column(id, j));
      DotUnit(Column(id, j), Row(m, i), j);
    }
    Extensionality(p, m);
  }

  // ------------------------------------------------- augmenting and slicing

  /** `augment(matrix)`: rejects operands with different row counts; row i
      of the result is row i of `m` followed by row i of `right`. */
  function Augment(m: Mat, right: Mat): (r: Result<Mat>)
    ensures r.Ok? <==> m.rows == right.rows
    ensures r.Err? ==> r.error == IllegalArgument
    ensures r.Ok? ==> r.value.rows == m.rows && r.value.columns == m.columns + right.columns
    ensures r.Ok? ==> forall i :: 0 <= i < m.rows ==> r.value.cells[i] == m.cells[i] + right.cells[i]
  {
    if m.rows != right.rows then Err(IllegalArgument)
    else Ok(Matrix(m.rows, m.columns + right.columns,
                   seq(m.rows, i requires 0 <= i < m.rows => m.cells[i] + right.cells[i])))
  }

  /** `getLeftColumns(n)`: rejects n <= 0 and n > columns; keeps the first n
      columns of every row. */
  function LeftColumns(m: Mat, n: int): (r: Result<Mat>)
    ensures r.Ok? <==> 0 < n <= m.columns
    ensures r.Err? ==> r.error == IllegalArgument
    ensures r.Ok? ==> r.value.rows == m.rows && r.value.columns == n
    ensures r.Ok? ==> forall i, j :: 0 <= i < m.rows && 0 <= j < n ==> At(r.value, i, j) == At(m, i, j)
  {
    if n > m.columns || n <= 0 then Err(IllegalArgument)
    else Ok(Matrix(m.rows, n, seq(m.rows, i requires 0 <= i < m.rows => m.cells[i][..n])))
  }

  /** `getRightColumns(n)`: rejects n <= 0 and n > columns; keeps the last n
      columns of every row. */
  function RightColumns(m: Mat, n: int): (r: Result<Mat>)
    ensures r.Ok? <==> 0 < n <= m.columns
    ensures r.Err? ==> r.error == IllegalArgument
    ensures r.Ok? ==> r.value.rows == m.rows && r.value.columns == n
    ensures r.Ok? ==> forall i, j :: 0 <= i < m.rows && 0 <= j < n ==>
                        At(r.value, i, j) == At(m, i, m.columns - n + j)
  {
    if n > m.columns || n <= 0 then Err(IllegalArgument)
    else Ok(Matrix(m.rows, n, seq(m.rows, i requires 0 <= i < m.rows => m.cells[i][m.columns - n..])))
  }

  /** The left block of an augmented matrix is the left operand. */
  lemma AugmentThenLeftColumns(m: Mat, right: Mat)
    requires m.rows == right.rows && m.columns > 0
    ensures LeftColumns(Augment(m, right).value, m.columns) == Ok(m)
  {
    var a := Augment(m, right).value;
    var left := LeftColumns(a, m.columns).value;
    forall i | 0 <= i < m.rows
      ensures left.cells[i] == m.cells[i]
    {
      assert left.cells[i] == (m.cells[i] + right.cells[i])[..m.columns];
    }
    assert left.cells == m.cells;
  }

  /** The right block of an augmented matrix is the right operand. */
  lemma AugmentThenRightColumns(m: Mat, right: Mat)
    requires m.rows == right.rows && right.columns > 0
    ensures RightColumns(Augment(m, right).value, right.columns) == Ok(right)
  {
    var a := Augment(m, right).value;
    var r := RightColumns(a, right.columns).value;
    forall i | 0 <= i < m.rows
      ensures r.cells[i] == right.cells[i]
    {
      assert r.cells[i] == (m.cells[i] + right.cells[i])[m.columns..];
    }
    assert r.cells == right.cells;
  }

  // ------------------------------------------------------------- identity

  /** Specification of `isIdentity`: false unless square; otherwise each
      diagonal cell equals 1 and each other cell is zero, within tolerance. */
  predicate IsIdentityValue(tol: real, m: Mat) {
    && m.rows == m.columns
    && forall i, j :: 0 <= i < m.rows && 0 <= j < m.columns ==> IdentityCell(tol, m, i, j)
  }

  /** The test `isIdentity` applies to one cell: near 1 on the main
      diagonal, near 0 elsewhere. */
  predicate IdentityCell(tol: real, m: Mat, i: int, j: int) {
    if i == j then AllNear(tol, [At(m, i, j), 1.0]) else IsZero(tol, At(m, i, j))
  }

  /** With a positive tolerance the identity passes `isIdentity`. */
  lemma IdentityIsIdentity(tol: real, size: int)
    requires tol > 0.0 && size > 0
    ensures IsIdentityValue(tol, Identity(size).value)
  {
    var id := Identity(size).value;
    forall i, j | 0 <= i < size && 0 <= j < size
      ensures IdentityCell(tol, id, i, j)
    {
      if i == j {
        assert [At(id, i, j), 1.0][1] - [At(id, i, j), 1.0][0] == 0.0;
      }
    }
  }

  // ------------------------------------------------ matrix times a vector

  /** The components of a vector, top to bottom. */
  function Components(v: Vec): (s: seq<real>)
    ensures |s| == v.rows && forall i :: 0 <= i < v.rows ==> s[i] == At(v, i, 0)
  {
    Column(v, 0)
  }

  /** The one-column matrix with the given components. */
  function VectorOf(s: seq<real>): (v: Vec)
    ensures v.rows == |s| && Components(v) == s
  {
    var v := Matrix(|s|, 1, seq(|s|, i requires 0 <= i < |s| => [s[i]]));
    assert Components(v) == s;
    v
  }

  /** `multiply(DoubleVector)` AS WRITTEN: the column count must equal the
      vector's length, but the product is allocated with the vector's length
      rather than the matrix's row count. With more rows than columns the
      write of component `columns` fails on the array; with fewer, the extra
      components stay 0. Component i accumulates vector.get(j) * get(i, j). */
  function MultiplyVector(m: Mat, v: Vec): (r: Result<Vec>)
    ensures r.Ok? <==> m.columns == v.rows && m.rows <= v.rows
    ensures r.Err? ==> r.error == (if m.columns != v.rows then IllegalArgument else IndexOutOfBounds)
    ensures r.Ok? ==> r.value.rows == v.rows
    ensures r.Ok? ==> forall i :: 0 <= i < v.rows ==>
                        At(r.value, i, 0) == if i < m.rows then Dot(Components(v), Row(m, i)) else 0.0
  {
    if m.columns != v.rows then Err(IllegalArgument)
    else if m.rows > v.rows then Err(IndexOutOfBounds)
    else Ok(VectorOf(seq(v.rows, i requires 0 <= i < v.rows =>
                           if i < m.rows then Dot(Components(v), Row(m, i)) else 0.0)))
  }

  /** The evidently intended `multiply(DoubleVector)`: one component per row
      of the matrix. */
  function MultiplyVectorIntended(m: Mat, v: Vec): (r: Result<Vec>)
    ensures r.Ok? <==> m.columns == v.rows
    ensures r.Err? ==> r.error == IllegalArgument
    ensures r.Ok? ==> r.value.rows == m.rows
    ensures r.Ok? ==> forall i :: 0 <= i < m.rows ==> At(r.value, i, 0) == Dot(Components(v), Row(m, i))
  {
    if m.columns != v.rows then Err(IllegalArgument)
    else Ok(VectorOf(seq(m.rows, i requires 0 <= i < m.rows => Dot(Components(v), Row(m, i)))))
  }

  /** The intended matrix-vector product is the matrix product with the
      vector taken as a one-column matrix. */
  lemma MultiplyVectorIsProduct(m: Mat, v: Vec)
    requires m.columns == v.rows
    ensures Multiply(m, v).Ok?
    ensures MultiplyVectorIntended(m, v).value == Multiply(m, v).value
  {
    var a, b := MultiplyVectorIntended(m, v).value, Multiply(m, v).value;
    forall i, j | 0 <= i < m.rows && 0 <= j < 1
      ensures At(a, i, j) == At(b, i, j)
    {
      DotSymmetric(Components(v), Row(m, i));
    }
    Extensionality(a, b);
  }

  /** On a square matrix the code as written agrees with the intended product. */
  lemma MultiplyVectorSquare(m: Mat, v: Vec)
    requires m.rows == m.columns == v.rows
    ensures MultiplyVector(m, v) == MultiplyVectorIntended(m, v)
  {
    Extensionality(MultiplyVector(m, v).value, MultiplyVectorIntended(m, v).value);
  }

  /** A 2 x 1 matrix times a one-component vector: the code as written fails
      on the array where a two-component product is intended. */
  lemma MultiplyVectorTallFails()
    ensures MultiplyVector(Matrix(2, 1, [[1.0], [1.0]]), Matrix(1, 1, [[1.0]])) == Err(IndexOutOfBounds)
    ensures MultiplyVectorIntended(Matrix(2, 1, [[1.0], [1.0]]), Matrix(1, 1, [[1.0]])).Ok?
  {
  }

  /** A 1 x 2 matrix times a two-component vector: the code as written returns
      two components where the product has one. */
  lemma MultiplyVectorWideIsTooLong()
    ensures MultiplyVector(Matrix(1, 2, [[1.0, 1.0]]), Matrix(2, 1, [[1.0], [1.0]])).value.rows == 2
    ensures MultiplyVectorIntended(Matrix(1, 2, [[1.0, 1.0]]), Matrix(2, 1, [[1.0], [1.0]])).value.rows == 1
  {
  }

  // ------------------------------------------------------- dot products

  /** The dot product does not depend on the order of its operands. */
  lemma {:induction false} DotSymmetric(a: seq<real>, b: seq<real>)
    requires |a| == |b|
    ensures Dot(a, b) == Dot(b, a)
  {
    if |a| > 0 {
      DotSymmetric(a[..|a| - 1], b[..|b| - 1]);
    }
  }

  /** Against a sequence that is 1 at k and 0 elsewhere, the dot product
      picks out component k. */
  lemma {:induction false} DotUnit(e: seq<real>, v: seq<real>, k: nat)
    requires |e| == |v| && k < |e|
    requires forall i :: 0 <= i < |e| ==> e[i] == if i == k then 1.0 else 0.0
    ensures Dot(e, v) == v[k]
  {
    var n := |e| - 1;
    if k < n {
      DotUnit(e[..n], v[..n], k);
    } else {
      DotZero(e[..n], v[..n]);
    }
  }

  /** Against a zero sequence the dot product is 0. */
  lemma {:induction false} DotZero(e: seq<real>, v: seq<real>)
    requires |e| == |v|
    requires forall i :: 0 <= i < |e| ==> e[i] == 0.0
    ensures Dot(e, v) == 0.0
  {
    if |e| > 0 {
      DotZero(e[..|e| - 1], v[..|v| - 1]);
    }
  }

  /** The dot product of a sequence with itself is never negative. */
  lemma {:induction false} DotSelfNonNegative(a: seq<real>)
    ensures Dot(a, a) >= 0.0
  {
    if |a| > 0 {
      DotSelfNonNegative(a[..|a| - 1]);
    }
  }

  /** Scaling one operand scales the dot product. */
  lemma {:induction false} DotScaled(a: seq<real>, b: seq<real>, s: real, bs: seq<real>)
    requires |a| == |b| == |bs|
    requires forall i :: 0 <= i < |b| ==> bs[i] == b[i] * s
    ensures Dot(a, bs) == s * Dot(a, b)
  {
    if |a| > 0 {
      var n := |a| - 1;
      DotScaled(a[..n], b[..n], s, bs[..n]);
      assert a[n] * bs[n] == s * (a[n] * b[n]);
    }
  }

  /** The dot product distributes over a componentwise sum in one operand. */
  lemma {:induction false} DotSummed(a: seq<real>, b: seq<real>, c: seq<real>, bc: seq<real>)
    requires |a| == |b| == |c| == |bc|
    requires forall i :: 0 <= i < |b| ==> bc[i] == b[i] + c[i]
    ensures Dot(a, bc) == Dot(a, b) + Dot(a, c)
  {
    if |a| > 0 {
      var n := |a| - 1;
      DotSummed(a[..n], b[..n], c[..n], bc[..n]);
    }
  }

  /** a minus c times b, component by component. */
  function Residual(a: seq<real>, b: seq<real>, c: real): (r: seq<real>)
    requires |a| == |b|
    ensures |r| == |a|
  {
    seq(|a|, i requires 0 <= i < |a| => a[i] - b[i] * c)
  }

  /** Taking c times b away from a, component by component, takes c times
      dot(b, b) away from dot(a, b). */
  lemma {:induction false} DotResidual(a: seq<real>, b: seq<real>, c: real, residual: seq<real>)
    requires |a| == |b| == |residual|
    requires forall i :: 0 <= i < |b| ==> residual[i] == a[i] - b[i] * c
    ensures Dot(residual, b) == Dot(a, b) - c * Dot(b, b)
  {
    if |a| > 0 {
      var n := |a| - 1;
      DotResidual(a[..n], b[..n], c, residual[..n]);
      ResidualStep(Dot(a[..n], b[..n]), Dot(b[..n], b[..n]), a[n], b[n], c, residual[n]);
    }
  }

  /** `DotResidual` for the residual a minus c times b. */
  lemma DotOfResidual(a: seq<real>, b: seq<real>, c: real)
    requires |a| == |b|
    ensures Dot(Residual(a, b, c), b) == Dot(a, b) - c * Dot(b, b)
  {
    DotResidual(a, b, c, Residual(a, b, c));
  }

  /** The arithmetic of one step of `DotResidual`. */
  lemma ResidualStep(ab: real, bb: real, x: real, y: real, c: real, r: real)
    requires r == x - y * c
    ensures (ab - c * bb) + r * y == (ab + x * y) - c * (bb + y * y)
  {
  }
}

/** Specifications of the in-place row operations and row-ordering helpers of
    src/DoubleMatrix.java, stated on matrix values. Each row operation also
    has a form that has handled only the first n columns, the state its Java
    loop is in after n rounds, with lemmas for the first and the next round
    and for the last, where it is the whole operation. */
module RowOps {
  import opened IndexMath
  import opened FloatMath
  import opened Matrices

  /** `rowSwap(a, b)` on a value: rows a and b trade places, nothing else moves. */
  function SwappedRows(m: Mat, a: nat, b: nat): (s: Mat)
    requires a < m.rows && b < m.rows
    ensures s.rows == m.rows && s.columns == m.columns
    ensures forall r :: 0 <= r < m.rows ==>
              s.cells[r] == m.cells[if r == a then b else if r == b then a else r]
  {
    Matrix(m.rows, m.columns, m.cells[a := m.cells[b]][b := m.cells[a]])
  }

  /** `rowScale(scalar, row)` on a value: only row `row` changes, each of its
      cells multiplied by the scalar. */
  function ScaledRow(m: Mat, scalar: real, row: nat): (s: Mat)
    requires row < m.rows
    ensures s.rows == m.rows && s.columns == m.columns
    ensures forall r :: 0 <= r < m.rows && r != row ==> s.cells[r] == m.cells[r]
    ensures forall c :: 0 <= c < m.columns ==> s.cells[row][c] == m.cells[row][c] * scalar
  {
    var w := m.columns;
    Matrix(m.rows, w, m.cells[row := seq(w, c requires 0 <= c < w => m.cells[row][c] * scalar)])
  }

  /** `rowAdd(to, scalar, from)` on a value: row `to` gains `scalar` times row
      `from`; every other row is unchanged. */
  function AddedRow(m: Mat, to: nat, scalar: real, from: nat): (s: Mat)
    requires to < m.rows && from < m.rows
    ensures s.rows == m.rows && s.columns == m.columns
    ensures forall r :: 0 <= r < m.rows && r != to ==> s.cells[r] == m.cells[r]
    ensures forall c :: 0 <= c < m.columns ==>
              s.cells[to][c] == m.cells[to][c] + m.cells[from][c] * scalar
  {
    var w := m.columns;
    Matrix(m.rows, w, m.cells[to := seq(w, c requires 0 <= c < w => m.cells[to][c] + m.cells[from][c] * scalar)])
  }

  // ------------------------------------------- the row operations, in rounds

  /** `rowSwap(a, b)` after its first n rounds: the cells of rows a and b
      in the first n columns have traded places. */
  function SwapUpTo(m: Mat, a: nat, b: nat, n: nat): (s: Mat)
    requires a < m.rows && b < m.rows && n <= m.columns
    ensures s.rows == m.rows && s.columns == m.columns
    ensures forall r :: 0 <= r < m.rows && r != a && r != b ==> s.cells[r] == m.cells[r]
    ensures forall c :: 0 <= c < m.columns ==>
              s.cells[a][c] == (if c < n then m.cells[b][c] else m.cells[a][c]) &&
              s.cells[b][c] == (if c < n then m.cells[a][c] else m.cells[b][c])
  {
    var w := m.columns;
    var ra := seq(w, c requires 0 <= c < w => if c < n then m.cells[b][c] else m.cells[a][c]);
    var rb := seq(w, c requires 0 <= c < w => if c < n then m.cells[a][c] else m.cells[b][c]);
    Matrix(m.rows, w, m.cells[a := ra][b := rb])
  }

  /** Round n of `rowSwap` writes the cell of column n of each row into the
      other row; neither has been changed by an earlier round. */
  lemma SwapRound(m: Mat, a: nat, b: nat, n: nat)
    requires a < m.rows && b < m.rows && n < m.columns
    ensures WithCell(WithCell(SwapUpTo(m, a, b, n), a, n, m.cells[b][n]), b, n, m.cells[a][n])
         == SwapUpTo(m, a, b, n + 1)
  {
    var p := SwapUpTo(m, a, b, n);
    var q := WithCell(WithCell(p, a, n, m.cells[b][n]), b, n, m.cells[a][n]);
    Extensionality(q, SwapUpTo(m, a, b, n + 1));
  }

  /** Before its first round `rowSwap` has changed nothing, and after its
      last round it has swapped the rows. */
  lemma SwapRoundsBounds(m: Mat, a: nat, b: nat)
    requires a < m.rows && b < m.rows
    ensures SwapUpTo(m, a, b, 0) == m
    ensures SwapUpTo(m, a, b, m.columns) == SwappedRows(m, a, b)
  {
    Extensionality(SwapUpTo(m, a, b, 0), m);
    Extensionality(SwapUpTo(m, a, b, m.columns), SwappedRows(m, a, b));
  }

  /** `rowScale(scalar, row)` after its first n rounds: the first n cells of
      the row are multiplied by the scalar. */
  function ScaleUpTo(m: Mat, scalar: real, row: nat, n: nat): (s: Mat)
    requires row < m.rows && n <= m.columns
    ensures s.rows == m.rows && s.columns == m.columns
    ensures forall r :: 0 <= r < m.rows && r != row ==> s.cells[r] == m.cells[r]
    ensures forall c :: 0 <= c < m.columns ==>
              s.cells[row][c] == if c < n then m.cells[row][c] * scalar else m.cells[row][c]
  {
    var w := m.columns;
    Matrix(m.rows, w, m.cells[row := seq(w, c requires 0 <= c < w =>
                                          if c < n then m.cells[row][c] * scalar else m.cells[row][c])])
  }

  /** Round n of `rowScale` multiplies cell n of the row, not yet changed
      and holding x, by the scalar. */
  lemma ScaleRound(m: Mat, scalar: real, row: nat, n: nat, x: real)
    requires row < m.rows && n < m.columns && x == m.cells[row][n]
    ensures WithCell(ScaleUpTo(m, scalar, row, n), row, n, x * scalar)
         == ScaleUpTo(m, scalar, row, n + 1)
  {
    var p := ScaleUpTo(m, scalar, row, n);
    var q, t := WithCell(p, row, n, x * scalar), ScaleUpTo(m, scalar, row, n + 1);
    forall r, c | 0 <= r < m.rows && 0 <= c < m.columns
      ensures At(q, r, c) == At(t, r, c)
    {
      if r == row {
        assert At(q, r, c) == if c == n then x * scalar else p.cells[r][c];
      } else {
        assert At(q, r, c) == p.cells[r][c];
      }
    }
    Extensionality(q, t);
  }

  lemma ScaleRoundsBounds(m: Mat, scalar: real, row: nat)
    requires row < m.rows
    ensures ScaleUpTo(m, scalar, row, 0) == m
    ensures ScaleUpTo(m, scalar, row, m.columns) == ScaledRow(m, scalar, row)
  {
    Extensionality(ScaleUpTo(m, scalar, row, 0), m);
    Extensionality(ScaleUpTo(m, scalar, row, m.columns), ScaledRow(m, scalar, row));
  }

  /** `rowAdd(to, scalar, from)` after its first n rounds: the first n cells
      of row `to` have gained `scalar` times the matching cells of `from`. */
  function AddUpTo(m: Mat, to: nat, scalar: real, from: nat, n: nat): (s: Mat)
    requires to < m.rows && from < m.rows && n <= m.columns
    ensures s.rows == m.rows && s.columns == m.columns
    ensures forall r :: 0 <= r < m.rows && r != to ==> s.cells[r] == m.cells[r]
    ensures forall c :: 0 <= c < m.columns ==>
              s.cells[to][c] == if c < n then m.cells[to][c] + m.cells[from][c] * scalar else m.cells[to][c]
  {
    var w := m.columns;
    Matrix(m.rows, w, m.cells[to := seq(w, c requires 0 <= c < w =>
                                         if c < n then m.cells[to][c] + m.cells[from][c] * scalar
                                         else m.cells[to][c])])
  }

  /** Round n of `rowAdd` adds `scalar` times cell n of `from` to cell n of
      `to`. Neither cell has been changed by an earlier round, also when the
      two rows are the same row; they hold x and y. */
  lemma AddRound(m: Mat, to: nat, scalar: real, from: nat, n: nat, x: real, y: real)
    requires to < m.rows && from < m.rows && n < m.columns
    requires x == m.cells[to][n] && y == m.cells[from][n]
    ensures WithCell(AddUpTo(m, to, scalar, from, n), to, n, x + y * scalar)
         == AddUpTo(m, to, scalar, from, n + 1)
  {
    var p := AddUpTo(m, to, scalar, from, n);
    var q := WithCell(p, to, n, x + y * scalar);
    var t := AddUpTo(m, to, scalar, from, n + 1);
    forall r, c | 0 <= r < m.rows && 0 <= c < m.columns
      ensures At(q, r, c) == At(t, r, c)
    {
      if r == to {
        assert At(q, r, c) == if c == n then x + y * scalar else p.cells[r][c];
      } else {
        assert At(q, r, c) == p.cells[r][c];
      }
    }
    Extensionality(q, t);
  }

  lemma AddRoundsBounds(m: Mat, to: nat, scalar: real, from: nat)
    requires to < m.rows && from < m.rows
    ensures AddUpTo(m, to, scalar, from, 0) == m
    ensures AddUpTo(m, to, scalar, from, m.columns) == AddedRow(m, to, scalar, from)
  {
    Extensionality(AddUpTo(m, to, scalar, from, 0), m);
    Extensionality(AddUpTo(m, to, scalar, from, m.columns), AddedRow(m, to, scalar, from));
  }

  /** Swapping the same two rows twice restores the matrix. */
  lemma SwapTwice(m: Mat, a: nat, b: nat)
    requires a < m.rows && b < m.rows
    ensures SwappedRows(SwappedRows(m, a, b), a, b) == m
  {
    assert SwappedRows(SwappedRows(m, a, b), a, b).cells == m.cells;
  }

  /** Swapping row a with b is swapping row b with a. */
  lemma SwapSymmetric(m: Mat, a: nat, b: nat)
    requires a < m.rows && b < m.rows
    ensures SwappedRows(m, a, b) == SwappedRows(m, b, a)
  {
    assert SwappedRows(m, a, b).cells == SwappedRows(m, b, a).cells;
  }

  /** Adding a multiple of another row can be undone by subtracting it. */
  lemma AddedRowUndone(m: Mat, to: nat, scalar: real, from: nat)
    requires to < m.rows && from < m.rows && to != from
    ensures AddedRow(AddedRow(m, to, scalar, from), to, -scalar, from) == m
  {
    var s := AddedRow(AddedRow(m, to, scalar, from), to, -scalar, from);
    forall c | 0 <= c < m.columns
      ensures s.cells[to][c] == m.cells[to][c]
    {
      var x, y := m.cells[to][c], m.cells[from][c];
      assert s.cells[to][c] == (x + y * scalar) + y * -scalar;
    }
    assert s.cells[to] == m.cells[to];
    assert s.cells == m.cells;
  }

  // ------------------------------------------------------- leading entries

  /** Specification of `leadingIndex`: the column of the first cell that is
      not zero within tolerance, or the row length for a zero row. */
  function LeadIndex(tol: real, row: seq<real>): (k: nat)
    ensures k <= |row|
    ensures forall j :: 0 <= j < k ==> IsZero(tol, row[j])
    ensures k < |row| ==> !IsZero(tol, row[k])
  {
    if |row| == 0 || !IsZero(tol, row[0]) then 0 else 1 + LeadIndex(tol, row[1..])
  }

  /** The leading index is the only position with zeros before it and a
      nonzero entry (or the end of the row) at it. */
  lemma LeadIndexUnique(tol: real, row: seq<real>, i: nat)
    requires i <= |row|
    requires forall j :: 0 <= j < i ==> IsZero(tol, row[j])
    requires i < |row| ==> !IsZero(tol, row[i])
    ensures LeadIndex(tol, row) == i
  {
  }

  /** Specification of `isZeroRow`: every cell is zero within tolerance. */
  predicate ZeroRow(tol: real, row: seq<real>) {
    forall j :: 0 <= j < |row| ==> IsZero(tol, row[j])
  }

  /** A row is a zero row exactly when its leading index is its length. */
  lemma ZeroRowHasNoLead(tol: real, row: seq<real>)
    ensures ZeroRow(tol, row) <==> LeadIndex(tol, row) == |row|
  {
  }

  /** Specification of `leadingEntry`: the cell at the leading index, or 0
      for a zero row. */
  function LeadEntry(tol: real, row: seq<real>): (e: real)
    ensures ZeroRow(tol, row) ==> e == 0.0
    ensures !ZeroRow(tol, row) ==> LeadIndex(tol, row) < |row| && e == row[LeadIndex(tol, row)] && !IsZero(tol, e)
  {
    var k := LeadIndex(tol, row);
    if k < |row| then row[k] else 0.0
  }

  /** With a positive tolerance a leading entry is never 0, so dividing by it
      is defined. */
  lemma LeadEntryNonZero(tol: real, row: seq<real>)
    requires tol > 0.0 && !ZeroRow(tol, row)
    ensures LeadEntry(tol, row) != 0.0
  {
  }

  /** The leading indices of rows start, start + 1, ... of a matrix. */
  function Leads(tol: real, m: Mat, start: nat): (s: seq<int>)
    requires start <= m.rows
    ensures |s| == m.rows - start
  {
    seq(m.rows - start, k requires 0 <= k < m.rows - start => LeadIndex(tol, m.cells[start + k]))
  }

  /** Entry i - start of `Leads` is the leading index of row i. */
  lemma LeadsAt(tol: real, m: Mat, start: nat, i: nat)
    requires start <= i < m.rows
    ensures Leads(tol, m, start)[i - start] == LeadIndex(tol, m.cells[i])
  {
  }

  // ------------------------------------------------- ordering of the rows

  predicate Sorted(s: seq<int>) {
    forall i, j :: 0 <= i < j < |s| ==> s[i] <= s[j]
  }

  /** A sequence whose neighbours are in order is in order. */
  lemma {:induction false} AdjacentSorted(s: seq<int>)
    requires forall i :: 0 <= i < |s| - 1 ==> s[i] <= s[i + 1]
    ensures Sorted(s)
  {
    if |s| > 1 {
      AdjacentSorted(s[1..]);
      forall i, j | 0 <= i < j < |s|
        ensures s[i] <= s[j]
      {
        if i > 0 {
          assert s[1..][i - 1] <= s[1..][j - 1];
        } else if j > 1 {
          assert s[1..][0] <= s[1..][j - 1];
        }
      }
    }
  }

  /** The number of elements of s strictly below x. */
  function CountBelow(s: seq<int>, x: int): nat {
    if |s| == 0 then 0 else (if s[0] < x then 1 else 0) + CountBelow(s[1..], x)
  }

  /** The number of pairs i < j with s[i] > s[j]. */
  function Inversions(s: seq<int>): nat {
    if |s| == 0 then 0 else CountBelow(s[1..], s[0]) + Inversions(s[1..])
  }

  lemma {:induction false} CountBelowSwap(s: seq<int>, k: nat, x: int)
    requires k + 1 < |s|
    ensures CountBelow(Exchanged(s, k), x) == CountBelow(s, x)
  {
    var t := Exchanged(s, k);
    if k == 0 {
      assert t[1..][1..] == s[1..][1..];
    } else {
      assert t[1..] == Exchanged(s[1..], k - 1);
      CountBelowSwap(s[1..], k - 1, x);
    }
  }

  /** Exchanging a pair of neighbours that is out of order removes exactly
      one inversion. */
  lemma {:induction false} SwapRemovesOneInversion(s: seq<int>, k: nat)
    requires k + 1 < |s| && s[k] > s[k + 1]
    ensures Inversions(Exchanged(s, k)) + 1 == Inversions(s)
  {
    var t := Exchanged(s, k);
    if k == 0 {
      assert t[1..][1..] == s[1..][1..];
      assert t[1..][0] == s[0];
      assert s[1..][0] == s[1];
    } else {
      assert t[1..] == Exchanged(s[1..], k - 1);
      CountBelowSwap(s[1..], k - 1, s[0]);
      SwapRemovesOneInversion(s[1..], k - 1);
    }
  }

  lemma {:induction false} CountBelowOfLower(s: seq<int>, x: int)
    requires forall i :: 0 <= i < |s| ==> x <= s[i]
    ensures CountBelow(s, x) == 0
  {
    if |s| > 0 {
      CountBelowOfLower(s[1..], x);
    }
  }

  /** A sorted sequence has no inversions. */
  lemma {:induction false} SortedHasNoInversions(s: seq<int>)
    requires Sorted(s)
    ensures Inversions(s) == 0
  {
    if |s| > 0 {
      CountBelowOfLower(s[1..], s[0]);
      SortedHasNoInversions(s[1..]);
    }
  }

  // ------------------------------------- rows as a list, and row swapping

  /** s with its neighbours at k and k + 1 exchanged. */
  function Exchanged<T>(s: seq<T>, k: nat): (t: seq<T>)
    requires k + 1 < |s|
    ensures |t| == |s| && t[k] == s[k + 1] && t[k + 1] == s[k]
    ensures forall i :: 0 <= i < |s| && i != k && i != k + 1 ==> t[i] == s[i]
  {
    s[k := s[k + 1]][k + 1 := s[k]]
  }

  lemma ExchangedKeepsElements<T>(s: seq<T>, k: nat)
    requires k + 1 < |s|
    ensures multiset(Exchanged(s, k)) == multiset(s)
  {
    var t := s[k := s[k + 1]];
    assert multiset(t) == multiset(s) - multiset{s[k]} + multiset{s[k + 1]};
  }

  /** Swapping neighbouring rows k and k + 1 exchanges their entries in the
      list of leading indices. */
  lemma SwapNeighbours(tol: real, m: Mat, k: nat, start: nat)
    requires start <= k && k + 1 < m.rows
    ensures Leads(tol, SwappedRows(m, k + 1, k), start) == Exchanged(Leads(tol, m, start), k - start)
  {
  }

  /** m holds the rows of orig with the rows above `start` in place and
      the rows from `start` on in some order. */
  predicate RowsRearranged(orig: Mat, m: Mat, start: nat) {
    m.rows == orig.rows && start <= m.rows &&
    m.cells[..start] == orig.cells[..start] &&
    multiset(m.cells[start..]) == multiset(orig.cells[start..])
  }

  lemma RowsRearrangedChain(a: Mat, b: Mat, c: Mat, start: nat)
    requires RowsRearranged(a, b, start) && RowsRearranged(b, c, start)
    ensures RowsRearranged(a, c, start)
  {
  }

  /** One step of `sortRows`: swapping row i, whose leading index is
      smaller than that of row i - 1 at or below `start`, with that row keeps
      the rows above `start`, permutes the rows from `start` on and removes
      exactly one inversion of their leading indices. */
  lemma SortStep(tol: real, m: Mat, i: nat, start: nat)
    requires start < i < m.rows
    requires Leads(tol, m, start)[i - 1 - start] > Leads(tol, m, start)[i - start]
    ensures RowsRearranged(m, SwappedRows(m, i, i - 1), start)
    ensures Inversions(Leads(tol, SwappedRows(m, i, i - 1), start)) + 1 == Inversions(Leads(tol, m, start))
  {
    var k := i - 1;
    SwapRearranges(m, k, start);
    SwapNeighbours(tol, m, k, start);
    SwapRemovesOneInversion(Leads(tol, m, start), k - start);
  }

  // ------------------------------------------- `sortRows` on a value

  /** The first position d >= k of s whose element is smaller than the one
      before it, or |s| when there is none: where a pass of `sortRows` stops
      and swaps (positions counted from the start row). */
  function FirstOutOfOrder(s: seq<int>, k: nat): (d: nat)
    requires 0 < k <= |s|
    ensures k <= d <= |s|
    ensures forall j :: k <= j < d ==> s[j - 1] <= s[j]
    ensures d < |s| ==> s[d - 1] > s[d]
    decreases |s| - k
  {
    if k == |s| || s[k - 1] > s[k] then k else FirstOutOfOrder(s, k + 1)
  }

  /** The position with no descent before it and a descent (or the end)
      at it is the one a pass finds. */
  lemma FirstOutOfOrderUnique(s: seq<int>, k: nat, d: nat)
    requires 0 < k <= d <= |s|
    requires forall j :: k <= j < d ==> s[j - 1] <= s[j]
    requires d < |s| ==> s[d - 1] > s[d]
    ensures FirstOutOfOrder(s, k) == d
  {
  }

  /** A pass finds nothing out of order exactly when the sequence is sorted. */
  lemma FirstOutOfOrderSorted(s: seq<int>)
    requires 0 < |s|
    ensures FirstOutOfOrder(s, 1) == |s| <==> Sorted(s)
  {
    var d := FirstOutOfOrder(s, 1);
    if d == |s| {
      forall i | 0 <= i < |s| - 1
        ensures s[i] <= s[i + 1]
      {
        assert s[(i + 1) - 1] <= s[i + 1];
      }
      AdjacentSorted(s);
    }
  }

  /** One pass of the do-while loop of `sortRows(start)` on a value: the
      first row whose leading index is smaller than that of the row above it
      trades places with that row; without one the matrix stays as it is. */
  function SortPass(tol: real, m: Mat, start: nat): (s: Mat)
    requires start < m.rows
    ensures s.rows == m.rows && s.columns == m.columns
  {
    var d := FirstOutOfOrder(Leads(tol, m, start), 1);
    if d == m.rows - start then m else SwappedRows(m, start + d, start + d - 1)
  }

  /** The pass that stops at row i swaps rows i and i - 1, or changes
      nothing when i is the row count. */
  lemma SortPassAt(tol: real, m: Mat, start: nat, i: nat)
    requires start < i <= m.rows && i == start + FirstOutOfOrder(Leads(tol, m, start), 1)
    ensures i == m.rows ==> SortPass(tol, m, start) == m
    ensures i < m.rows ==> SortPass(tol, m, start) == SwappedRows(m, i, i - 1)
    ensures i == m.rows <==> Sorted(Leads(tol, m, start))
  {
    FirstOutOfOrderSorted(Leads(tol, m, start));
  }

  /** A pass over sorted leading indices changes nothing; any other pass
      keeps the rows above `start`, permutes the rows from `start` on and
      removes exactly one inversion of their leading indices. */
  lemma SortPassSteps(tol: real, m: Mat, start: nat)
    requires start < m.rows
    ensures Sorted(Leads(tol, m, start)) ==> SortPass(tol, m, start) == m
    ensures !Sorted(Leads(tol, m, start)) ==>
              && RowsRearranged(m, SortPass(tol, m, start), start)
              && Inversions(Leads(tol, SortPass(tol, m, start), start)) + 1 == Inversions(Leads(tol, m, start))
  {
    var leads := Leads(tol, m, start);
    var d := FirstOutOfOrder(leads, 1);
    FirstOutOfOrderSorted(leads);
    if d < m.rows - start {
      var i := start + d;
      assert leads[i - 1 - start] > leads[i - start];
      SortStep(tol, m, i, start);
      assert SortPass(tol, m, start) == SwappedRows(m, i, i - 1);
    } else {
      assert SortPass(tol, m, start) == m;
    }
  }

  /** `sortRows(start)` on a value: passes repeated until one swaps nothing.
      Every pass that swaps removes one inversion, so the passes end. */
  function SortedFrom(tol: real, m: Mat, start: nat): (s: Mat)
    requires start < m.rows
    ensures s.rows == m.rows && s.columns == m.columns
    decreases Inversions(Leads(tol, m, start))
  {
    var d := FirstOutOfOrder(Leads(tol, m, start), 1);
    if d == m.rows - start then m
    else
      SortStep(tol, m, start + d, start);
      SortedFrom(tol, SortPass(tol, m, start), start)
  }

  /** A pass does not change what sorting leads to. */
  lemma SortedFromPass(tol: real, m: Mat, start: nat)
    requires start < m.rows
    ensures SortedFrom(tol, SortPass(tol, m, start), start) == SortedFrom(tol, m, start)
  {
  }

  /** Sorting rows whose leading indices already ascend changes nothing. */
  lemma SortedFromSorted(tol: real, m: Mat, start: nat)
    requires start < m.rows && Sorted(Leads(tol, m, start))
    ensures SortedFrom(tol, m, start) == m
  {
    FirstOutOfOrderSorted(Leads(tol, m, start));
  }

  /** Independent of how it gets there, sorting from `start` keeps the rows
      above `start`, only permutes the rows from `start` on, and leaves their
      leading indices ascending. */
  lemma {:induction false} SortedFromSorts(tol: real, m: Mat, start: nat)
    requires start < m.rows
    ensures RowsRearranged(m, SortedFrom(tol, m, start), start)
    ensures Sorted(Leads(tol, SortedFrom(tol, m, start), start))
    decreases Inversions(Leads(tol, m, start))
  {
    var leads := Leads(tol, m, start);
    var d := FirstOutOfOrder(leads, 1);
    FirstOutOfOrderSorted(leads);
    if d < m.rows - start {
      var next := SortPass(tol, m, start);
      SortStep(tol, m, start + d, start);
      SortedFromSorts(tol, next, start);
      RowsRearrangedChain(m, next, SortedFrom(tol, next, start), start);
    }
  }

  /** The leading indices from row `start` on are those from row 0 on
      without the first `start`. */
  lemma LeadsSuffix(tol: real, m: Mat, start: nat)
    requires start <= m.rows
    ensures Leads(tol, m, start) == Leads(tol, m, 0)[start..]
  {
  }

  /** When all leading indices ascend, so do those from any row on. */
  lemma SortedSuffix(tol: real, m: Mat, start: nat)
    requires start <= m.rows && Sorted(Leads(tol, m, 0))
    ensures Sorted(Leads(tol, m, start))
  {
    LeadsSuffix(tol, m, start);
  }

  /** Swapping neighbouring rows at or below `start` rearranges the rows
      from `start` on. */
  lemma SwapRearranges(m: Mat, k: nat, start: nat)
    requires start <= k && k + 1 < m.rows
    ensures RowsRearranged(m, SwappedRows(m, k + 1, k), start)
  {
    var s := SwappedRows(m, k + 1, k);
    assert s.cells[start..] == Exchanged(m.cells[start..], k - start);
    assert s.cells[..start] == m.cells[..start];
    ExchangedKeepsElements(m.cells[start..], k - start);
  }

  /** Each row of a list whose rows are a permutation of another list's rows
      is one of that list's rows. */
  lemma PermutedRowIsARow(s: seq<seq<real>>, t: seq<seq<real>>, j: nat)
    requires multiset(s) == multiset(t) && j < |s|
    ensures exists j' :: 0 <= j' < |t| && t[j'] == s[j]
  {
    assert s[j] in multiset(s);
    assert s[j] in multiset(t);
  }
}

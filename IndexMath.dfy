/** Arithmetic facts about the row-major layout: cell (r, c) of a grid with
    `w` columns lives at flat index r * w + c. The offset r * w of a row is
    written `Offset(r, w)`, defined by repeated addition, so that proofs about
    the layout reason with sums; `OffsetIsProduct` connects it to the
    product the Java code computes. */
module IndexMath {

  /** The flat index of the first cell of row r. */
  function Offset(r: nat, w: nat): nat {
    if r == 0 then 0 else Offset(r - 1, w) + w
  }

  lemma {:induction false} OffsetIsProduct(r: nat, w: nat)
    ensures Offset(r, w) == r * w
  {
    if r > 0 {
      OffsetIsProduct(r - 1, w);
    }
  }

  /** A later row starts after the end of an earlier one. */
  lemma {:induction false} OffsetGrows(r: nat, t: nat, w: nat)
    requires r < t
    ensures Offset(r, w) + w <= Offset(t, w)
  {
    if r + 1 < t {
      OffsetGrows(r, t - 1, w);
    }
  }

  /** A flat index lies in row t's block exactly when its cell is in row t. */
  lemma InRowBlock(r: nat, c: nat, t: nat, w: nat)
    requires c < w
    ensures (Offset(t, w) <= Offset(r, w) + c < Offset(t, w) + w) <==> r == t
  {
    if r < t {
      OffsetGrows(r, t, w);
    } else if r > t {
      OffsetGrows(t, r, w);
    }
  }

  /** The block of row r ends inside a store of `rows` rows. */
  lemma RowBlockEnd(r: nat, rows: nat, w: nat)
    requires r < rows
    ensures Offset(r, w) + w <= Offset(rows, w)
  {
    OffsetGrows(r, rows, w);
  }

  /** The store blocks of two different rows do not overlap. */
  lemma BlocksApart(a: nat, b: nat, w: nat)
    requires a != b
    ensures Offset(a, w) + w <= Offset(b, w) || Offset(b, w) + w <= Offset(a, w)
  {
    if a < b {
      OffsetGrows(a, b, w);
    } else {
      OffsetGrows(b, a, w);
    }
  }

  /** Distinct cells have distinct flat indices. */
  lemma CellIndexInjective(r: nat, c: nat, t: nat, d: nat, w: nat)
    requires c < w && d < w
    ensures Offset(r, w) + c == Offset(t, w) + d <==> r == t && c == d
  {
    InRowBlock(r, c, t, w);
  }

  /** Every flat index of a store of `rows` rows names a cell inside the
      grid: row i / w, column i % w. */
  lemma IndexOfCell(i: nat, rows: nat, w: nat)
    requires i < Offset(rows, w)
    ensures w > 0
    ensures i / w < rows && i % w < w
    ensures Offset(i / w, w) + i % w == i
  {
    OffsetIsProduct(rows, w);
    var q := i / w;
    OffsetIsProduct(q, w);
    if q >= rows {
      if q > rows {
        OffsetGrows(rows, q, w);
      }
      assert false;
    }
  }

  /** Dividing a flat index by the column count recovers the cell. */
  lemma CellOfIndex(r: nat, c: nat, w: nat)
    requires c < w
    ensures (Offset(r, w) + c) / w == r
    ensures (Offset(r, w) + c) % w == c
  {
    var i := Offset(r, w) + c;
    IndexOfCell(i, r + 1, w);
    CellIndexInjective(r, c, i / w, i % w, w);
  }

  /** A further row follows the row of flat index i exactly when one more
      row's width past i is still inside a store of `rows` rows. */
  lemma RowAfter(i: nat, rows: nat, w: nat)
    requires w > 0 && i <= rows * w
    ensures i + w < rows * w <==> i / w + 1 < rows
  {
    var q := i / w;
    OffsetIsProduct(rows, w);
    OffsetIsProduct(q + 1, w);
    assert Offset(q + 1, w) <= i + w < Offset(q + 1, w) + w;
    if q + 1 < rows {
      OffsetGrows(q + 1, rows, w);
    } else if q + 1 > rows {
      OffsetGrows(rows, q + 1, w);
    }
  }
}

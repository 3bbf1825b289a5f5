/** The index cursor of src/MatrixIterator.java: one mutable linear position
    over a grid of rows * columns cells, from which the row and the column
    are derived by division and remainder. */
module Cursor {
  import opened Wrappers
  import IndexMath

  class MatrixIterator {
    var index: int
    const columns: nat
    const indices: nat
    /** The row count the cursor was built with; Java keeps only the product. */
    ghost const rows: nat

    /** The cursor never leaves [0, indices]. */
    ghost predicate Valid()
      reads this
    {
      && indices == rows * columns
      && 0 <= index <= indices
    }

    constructor (rows: nat, columns: nat)
      ensures Valid()
      ensures index == 0
      ensures this.rows == rows && this.columns == columns && indices == rows * columns
    {
      this.rows := rows;
      this.columns := columns;
      indices := rows * columns;
      index := 0;
    }

    /** `hasNext`: the cursor is still on a cell of the grid; once it is
        not, it stands exactly at the end. */
    function HasNext(): (b: bool)
      reads this
      ensures Valid() && b ==> columns > 0 && 0 <= index / columns < rows
      ensures Valid() && !b ==> index == indices
    {
      index < indices
    }

    /** `hasNextRow`: the row after the cursor's row is still a row of the
        grid. */
    function HasNextRow(): (b: bool)
      reads this
      ensures Valid() && b ==> columns > 0
      ensures Valid() && columns > 0 ==> (b <==> index / columns + 1 < rows)
    {
      assert Valid() && columns > 0 ==> (index + columns < indices <==> index / columns + 1 < rows) by {
        if Valid() && columns > 0 {
          IndexMath.RowAfter(index, rows, columns);
        }
      }
      index + columns < indices
    }

    /** `getRow`: the row of the cursor; Java's integer division throws when
        there are no columns. */
    function GetRow(): (r: Result<int>)
      reads this
      ensures r.Ok? <==> columns > 0
      ensures r.Err? ==> r.error == Arithmetic
      ensures r.Ok? && Valid() ==> 0 <= r.value && r.value * columns <= index < r.value * columns + columns
    {
      if columns == 0 then Err(Arithmetic) else Ok(index / columns)
    }

    /** `getColumn`: the column of the cursor; row * columns + column is the
        cursor itself. */
    function GetColumn(): (r: Result<int>)
      reads this
      ensures r.Ok? <==> columns > 0
      ensures r.Err? ==> r.error == Arithmetic
      ensures r.Ok? ==> 0 <= r.value < columns
      ensures r.Ok? && Valid() ==> GetRow().value * columns + r.value == index
    {
      if columns == 0 then Err(Arithmetic) else Ok(index % columns)
    }

    /** `getIndex`: the linear position, which the row and the column
        recompose. */
    function GetIndex(): (i: int)
      reads this
      ensures Valid() ==> 0 <= i <= indices
      ensures columns > 0 ==> i == GetRow().value * columns + GetColumn().value
    {
      index
    }

    /** `next`: fails once the cursor is exhausted, otherwise advances by one
        and returns the new position. */
    method Next() returns (r: Result<int>)
      requires Valid()
      modifies this
      ensures Valid()
      ensures r.Ok? <==> old(index) < indices
      ensures r.Ok? ==> index == old(index) + 1 && r.value == index
      ensures r.Err? ==> r.error == NoSuchElement && index == old(index)
    {
      if !HasNext() {
        return Err(NoSuchElement);
      }
      index := index + 1;
      r := Ok(index);
    }

    /** `nextRow`: fails on the final row, otherwise jumps to the first cell of
        the following row, which is still inside the grid. */
    method NextRow() returns (r: Result<int>)
      requires Valid()
      modifies this
      ensures Valid()
      ensures r.Ok? <==> old(index) + columns < indices
      ensures r.Ok? ==> columns > 0 && index == (old(index) / columns + 1) * columns
      ensures r.Ok? ==> r.value == index && old(index) < index < indices && index % columns == 0
      ensures r.Err? ==> r.error == NoSuchElement && index == old(index)
    {
      if !HasNextRow() {
        return Err(NoSuchElement);
      }
      var row := GetRow();
      index := (row.value + 1) * columns;
      IndexMath.CellOfIndex(row.value + 1, 0, columns);
      r := Ok(index);
    }

    /** `reset`: back to the first cell. */
    method Reset()
      requires Valid()
      modifies this
      ensures Valid() && index == 0
    {
      index := 0;
    }
  }
}

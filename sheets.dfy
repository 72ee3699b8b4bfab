/** The spreadsheet the report script works on, with the host operations the
    script calls. Where the host would throw because a range does not lie
    inside the sheet, the operation reports `ok == false` and changes nothing. */
module Sheets {
  import opened Cells
  import opened Grids

  class Sheet {
    /** The cells; row `r`, column `c` is `cells[r - 1][c - 1]`. */
    var cells: Grid
    /** The number of columns of the sheet. */
    var width: nat

    /** Every row has the sheet's width. */
    ghost predicate Valid()
      reads this
    {
      IsRect(cells, width)
    }

    constructor (g: Grid, w: nat)
      requires IsRect(g, w)
      ensures Valid() && cells == g && width == w
    {
      cells, width := g, w;
    }

    /** The range with top-left cell (`row`, `col`) and the given size lies in the sheet. */
    predicate Fits(row: int, col: int, numRows: int, numCols: int)
      reads this
    {
      RangeFits(cells, width, row, col, numRows, numCols)
    }

    /** `getLastRow()`. */
    function GetLastRow(): nat
      reads this
    {
      LastRow(cells)
    }

    /** `getLastColumn()`. */
    function GetLastColumn(): nat
      reads this
    {
      LastColumn(cells)
    }

    /** `getRange(row, col, numRows, numCols).getValues()`. */
    method GetValues(row: int, col: int, numRows: int, numCols: int) returns (ok: bool, values: Grid)
      requires Valid()
      ensures ok == Fits(row, col, numRows, numCols)
      ensures ok ==> |values| == numRows && IsRect(values, numCols)
      ensures ok ==> forall i, j | 0 <= i < numRows && 0 <= j < numCols ::
        values[i][j] == At(cells, row + i, col + j)
    {
      ok := Fits(row, col, numRows, numCols);
      if !ok {
        return ok, [];
      }
      var g := cells;
      values := seq(numRows, i requires 0 <= i < numRows => g[row - 1 + i][col - 1..col - 1 + numCols]);
    }

    /** `getRange(row, col, |values|, |values[0]|).setValues(values)`. */
    method SetValues(row: int, col: int, values: Grid) returns (ok: bool)
      requires Valid()
      modifies this
      ensures Valid() && width == old(width)
      ensures ok == (|values| >= 1 && IsRect(values, |values[0]|) &&
                     RangeFits(old(cells), width, row, col, |values|, |values[0]|))
      ensures cells == if ok then Paste(old(cells), row, col, values) else old(cells)
    {
      ok := |values| >= 1 && IsRect(values, |values[0]|) && Fits(row, col, |values|, |values[0]|);
      if ok {
        cells := Paste(cells, row, col, values);
      }
    }

    /** `getRange(row, col).setValue(v)`; `setFormula(f)` is this with the formula text. */
    method SetValue(row: int, col: int, v: Cell) returns (ok: bool)
      requires Valid()
      modifies this
      ensures Valid() && width == old(width)
      ensures ok == RangeFits(old(cells), width, row, col, 1, 1)
      ensures cells == if ok then SetCell(old(cells), row, col, v) else old(cells)
    {
      ok := Fits(row, col, 1, 1);
      if ok {
        cells := SetCell(cells, row, col, v);
      }
    }

    /** `getRange(row, col, numRows, numCols).clearContent()`. */
    method ClearContent(row: int, col: int, numRows: int, numCols: int) returns (ok: bool)
      requires Valid()
      modifies this
      ensures Valid() && width == old(width)
      ensures ok == RangeFits(old(cells), width, row, col, numRows, numCols)
      ensures cells == if ok then Paste(old(cells), row, col, Filled(numRows, numCols, Empty)) else old(cells)
    {
      ok := Fits(row, col, numRows, numCols);
      if ok {
        cells := Paste(cells, row, col, Filled(numRows, numCols, Empty));
      }
    }

    /** `deleteColumn(c)`: the column goes and the columns right of it move
        one to the left; a column the sheet does not have is refused. */
    method DeleteColumn(c: int) returns (ok: bool)
      requires Valid()
      modifies this
      ensures Valid()
      ensures ok == (1 <= c <= old(width))
      ensures width == if ok then old(width) - 1 else old(width)
      ensures cells == DeleteColumnGrid(old(cells), c)
    {
      ok := 1 <= c <= width;
      if ok {
        cells := DeleteColumnGrid(cells, c);
        width := width - 1;
      } else {
        assert DeleteColumnGrid(cells, c) == cells;
      }
    }
  }
}

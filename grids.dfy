/** The sheet's cells as a grid of rows, addressed from 1 as the spreadsheet
    addresses them, with the grid-level facts the report script relies on:
    where the last used row and column are, and what deleting columns one
    after another does to the columns that stay. */
module Grids {
  import opened Cells

  /** One sheet row; column `c` (counted from 1) is at index `c - 1`. */
  type Row = seq<Cell>

  /** The cells of a sheet; row `r` (counted from 1) is at index `r - 1`. */
  type Grid = seq<Row>

  /** Every row of `g` has exactly `width` columns. */
  predicate IsRect(g: Grid, width: nat)
  {
    forall i | 0 <= i < |g| :: |g[i]| == width
  }

  /** The cell at (`row`, `col`); an address outside the grid reads as empty. */
  function At(g: Grid, row: int, col: int): Cell
  {
    if 1 <= row <= |g| && 1 <= col <= |g[row - 1]| then g[row - 1][col - 1] else Empty
  }

  /** `g` with the cell at (`row`, `col`) replaced by `v`. */
  function SetCell(g: Grid, row: int, col: int, v: Cell): (h: Grid)
    requires 1 <= row <= |g| && 1 <= col <= |g[row - 1]|
    ensures |h| == |g| && forall i | 0 <= i < |g| :: |h[i]| == |g[i]|
    ensures At(h, row, col) == v
    ensures forall r, c | r != row || c != col :: At(h, r, c) == At(g, r, c)
  {
    g[row - 1 := g[row - 1][col - 1 := v]]
  }

  /** Two grids of the same shape that agree at every address are equal. */
  lemma GridExt(g: Grid, h: Grid)
    requires |g| == |h| && forall i | 0 <= i < |g| :: |g[i]| == |h[i]|
    requires forall r, c :: At(g, r, c) == At(h, r, c)
    ensures g == h
  {
    forall i | 0 <= i < |g| ensures g[i] == h[i] {
      forall j | 0 <= j < |g[i]| ensures g[i][j] == h[i][j] {
        assert At(g, i + 1, j + 1) == At(h, i + 1, j + 1);
      }
    }
  }

  /** The range of `numRows` by `numCols` cells whose top-left cell is
      (`row`, `col`) lies inside a sheet of `|g|` rows and `width` columns;
      the host refuses any other range. */
  predicate RangeFits(g: Grid, width: nat, row: int, col: int, numRows: int, numCols: int)
  {
    1 <= row && 1 <= col && 1 <= numRows && 1 <= numCols &&
    row + numRows - 1 <= |g| && col + numCols - 1 <= width
  }

  /** `g` with the block `block` written so that its first cell lands on
      (`row`, `col`); parts of the block outside `g` are dropped. */
  function Paste(g: Grid, row: int, col: int, block: Grid): (h: Grid)
    ensures |h| == |g| && forall i | 0 <= i < |g| :: |h[i]| == |g[i]|
  {
    seq(|g|, i requires 0 <= i < |g| =>
      seq(|g[i]|, j requires 0 <= j < |g[i]| =>
        if 0 <= i - (row - 1) < |block| && 0 <= j - (col - 1) < |block[i - (row - 1)]|
        then block[i - (row - 1)][j - (col - 1)] else g[i][j]))
  }

  /** Reading a pasted grid: inside the block its cells, elsewhere the old ones. */
  lemma PasteAt(g: Grid, row: int, col: int, block: Grid, r: int, c: int)
    ensures At(Paste(g, row, col, block), r, c) ==
      if 1 <= r <= |g| && 1 <= c <= |g[r - 1]| && row <= r < row + |block| && col <= c < col + |block[r - row]|
      then block[r - row][c - col] else At(g, r, c)
  {
  }

  /** A `numRows` by `numCols` block of copies of `v`. */
  function Filled(numRows: nat, numCols: nat, v: Cell): Grid
  {
    seq(numRows, i => seq(numCols, j => v))
  }

  // ----- the last used row and column (`getLastRow`, `getLastColumn`) -----

  /** Some cell of the row is used. */
  predicate RowHasContent(row: Row)
  {
    exists j | 0 <= j < |row| :: HasContent(row[j])
  }

  /** `getLastRow`: the number of the last row holding a used cell, 0 when
      there is none. */
  function LastRow(g: Grid): (n: nat)
    ensures n <= |g|
    ensures n > 0 ==> RowHasContent(g[n - 1])
    ensures forall i {:trigger RowHasContent(g[i])} | n <= i < |g| :: !RowHasContent(g[i])
  {
    if g == [] then 0
    else if RowHasContent(g[|g| - 1]) then |g|
    else LastRow(g[..|g| - 1])
  }

  /** No used cell lies below the last row. */
  lemma NoContentBelowLastRow(g: Grid, r: int, c: int)
    requires r > LastRow(g)
    ensures !HasContent(At(g, r, c))
  {
    if 1 <= r <= |g| && 1 <= c <= |g[r - 1]| {
      assert !RowHasContent(g[r - 1]);
    }
  }

  /** The number of the last used column of one row, 0 when there is none. */
  function LastInRow(row: Row): (n: nat)
    ensures n <= |row|
    ensures n > 0 ==> HasContent(row[n - 1])
    ensures forall j {:trigger HasContent(row[j])} | n <= j < |row| :: !HasContent(row[j])
  {
    if row == [] then 0
    else if HasContent(row[|row| - 1]) then |row|
    else LastInRow(row[..|row| - 1])
  }

  /** `getLastColumn`: the number of the last column holding a used cell in
      any row, 0 when there is none. */
  function LastColumn(g: Grid): (n: nat)
    ensures forall i | 0 <= i < |g| :: LastInRow(g[i]) <= n
    ensures n > 0 ==> exists i | 0 <= i < |g| :: LastInRow(g[i]) == n
  {
    if g == [] then 0
    else
      var before := LastColumn(g[..|g| - 1]);
      var last := LastInRow(g[|g| - 1]);
      assert forall i | 0 <= i < |g| - 1 :: g[..|g| - 1][i] == g[i];
      if last <= before then before else last
  }

  /** A used cell at index `j` puts the row's last used column at `j + 1` or later. */
  lemma LastInRowAtLeast(row: Row, j: int)
    requires 0 <= j < |row| && HasContent(row[j])
    ensures LastInRow(row) >= j + 1
  {
  }

  /** A sheet with a used row has a used column, and the last used column
      of a rectangular sheet lies within its width. */
  lemma LastColumnBounds(g: Grid, width: nat)
    requires IsRect(g, width)
    ensures LastRow(g) >= 1 ==> LastColumn(g) >= 1
    ensures LastColumn(g) <= width
  {
    var n := LastRow(g);
    if n >= 1 {
      assert RowHasContent(g[n - 1]);
      var j :| 0 <= j < |g[n - 1]| && HasContent(g[n - 1][j]);
      LastInRowAtLeast(g[n - 1], j);
    }
    if LastColumn(g) > 0 {
      var i :| 0 <= i < |g| && LastInRow(g[i]) == LastColumn(g);
      assert |g[i]| == width;
    }
  }

  /** No used cell lies right of the last column. */
  lemma NoContentRightOfLastColumn(g: Grid, r: int, c: int)
    requires c > LastColumn(g)
    ensures !HasContent(At(g, r, c))
  {
    if 1 <= r <= |g| && 1 <= c <= |g[r - 1]| {
      assert LastInRow(g[r - 1]) <= LastColumn(g);
    }
  }

  // ----- deleting columns (`deleteColumn`) -----

  /** The row without its column `c`; the columns after it move one to the left. */
  function RemoveColumn(row: Row, c: int): Row
    requires 1 <= c <= |row|
  {
    row[..c - 1] + row[c..]
  }

  /** One `deleteColumn(c)` on one row; a column that does not exist is a
      skipped step. */
  function DeleteStep(row: Row, c: int): Row
  {
    if 1 <= c <= |row| then RemoveColumn(row, c) else row
  }

  /** The deletions `cs` on one row, one after another, each index taken
      against the row as the previous deletions left it. */
  function DeleteEach(row: Row, cs: seq<int>): Row
  {
    if cs == [] then row else DeleteEach(DeleteStep(row, cs[0]), cs[1..])
  }

  /** One `deleteColumn(c)` on every row of a sheet. */
  function DeleteColumnGrid(g: Grid, c: int): (h: Grid)
    ensures |h| == |g|
  {
    seq(|g|, i requires 0 <= i < |g| => DeleteStep(g[i], c))
  }

  /** The deletions `cs` on a whole sheet, one after another. */
  function DeleteColumns(g: Grid, cs: seq<int>): (h: Grid)
    ensures |h| == |g|
    decreases |cs|
  {
    if cs == [] then g else DeleteColumns(DeleteColumnGrid(g, cs[0]), cs[1..])
  }

  /** Deleting on the sheet deletes on each of its rows. */
  lemma {:induction false} DeleteColumnsRows(g: Grid, cs: seq<int>, i: int)
    requires 0 <= i < |g|
    ensures DeleteColumns(g, cs)[i] == DeleteEach(g[i], cs)
    decreases |cs|
  {
    if cs != [] {
      DeleteColumnsRows(DeleteColumnGrid(g, cs[0]), cs[1..], i);
    }
  }

  /** The width a row of width `w` has after the deletions `cs`. */
  function WidthAfter(w: nat, cs: seq<int>): nat
  {
    if cs == [] then w else WidthAfter(if 1 <= cs[0] <= w then w - 1 else w, cs[1..])
  }

  /** Deleting columns never widens a row. */
  lemma {:induction false} WidthAfterAtMost(w: nat, cs: seq<int>)
    ensures WidthAfter(w, cs) <= w
  {
    if cs != [] {
      WidthAfterAtMost(if 1 <= cs[0] <= w then w - 1 else w, cs[1..]);
    }
  }

  /** The width after the deletions depends only on the width before them. */
  lemma {:induction false} DeleteEachWidth(row: Row, cs: seq<int>)
    ensures |DeleteEach(row, cs)| == WidthAfter(|row|, cs)
  {
    if cs != [] {
      DeleteEachWidth(DeleteStep(row, cs[0]), cs[1..]);
    }
  }

  /** A rectangular sheet stays rectangular, with the width `WidthAfter` gives. */
  lemma DeleteColumnsRect(g: Grid, w: nat, cs: seq<int>)
    requires IsRect(g, w)
    ensures IsRect(DeleteColumns(g, cs), WidthAfter(w, cs))
  {
    forall i | 0 <= i < |g| ensures |DeleteColumns(g, cs)[i]| == WidthAfter(w, cs) {
      DeleteColumnsRows(g, cs, i);
      DeleteEachWidth(g[i], cs);
    }
  }

  /** The reference meaning of a batch of deletions: the cells of `row`, in
      their original order, whose ORIGINAL column number is not in `gone`;
      the first cell of `row` has column number `first`. */
  function Keep(row: Row, gone: set<int>, first: int): Row
  {
    if row == [] then []
    else (if first in gone then [] else [row[0]]) + Keep(row[1..], gone, first + 1)
  }

  /** Keeping distributes over the two halves of a row. */
  lemma {:induction false} KeepSplit(a: Row, b: Row, gone: set<int>, first: int)
    ensures Keep(a + b, gone, first) == Keep(a, gone, first) + Keep(b, gone, first + |a|)
  {
    if a == [] {
      assert a + b == b;
    } else {
      assert (a + b)[0] == a[0];
      assert (a + b)[1..] == a[1..] + b;
      KeepSplit(a[1..], b, gone, first + 1);
    }
  }

  /** Only the column numbers the row actually spans matter. */
  lemma {:induction false} KeepAgree(row: Row, gone: set<int>, gone': set<int>, first: int)
    requires forall q | first <= q < first + |row| :: q in gone <==> q in gone'
    ensures Keep(row, gone, first) == Keep(row, gone', first)
  {
    if row != [] {
      KeepAgree(row[1..], gone, gone', first + 1);
    }
  }

  /** A row none of whose column numbers is gone is kept whole. */
  lemma {:induction false} KeepNoneGone(row: Row, gone: set<int>, first: int)
    requires forall q | first <= q < first + |row| :: q !in gone
    ensures Keep(row, gone, first) == row
  {
    if row != [] {
      KeepNoneGone(row[1..], gone, first + 1);
    }
  }

  /** A row all of whose column numbers are gone disappears. */
  lemma {:induction false} KeepAllGone(row: Row, gone: set<int>, first: int)
    requires forall q | first <= q < first + |row| :: q in gone
    ensures Keep(row, gone, first) == []
  {
    if row != [] {
      KeepAllGone(row[1..], gone, first + 1);
    }
  }

  /** The values of a sequence, as a set. */
  function Elems(cs: seq<int>): (s: set<int>)
    ensures forall x :: x in s <==> x in cs
  {
    set x | x in cs
  }

  /** Each element is larger than every element after it. */
  predicate StrictlyDecreasing(cs: seq<int>)
  {
    forall i, j | 0 <= i < j < |cs| :: cs[i] > cs[j]
  }

  /** Removing column `c` from a row in which no column after `c` is gone
      yet keeps the same cells as marking `c` gone in the original row. */
  lemma KeepRemoveOne(row: Row, c: int, gone: set<int>)
    requires 1 <= c <= |row|
    requires forall q | q in gone :: q < c
    ensures Keep(RemoveColumn(row, c), gone, 1) == Keep(row, gone + {c}, 1)
  {
    var a, x, b := row[..c - 1], row[c - 1], row[c..];
    var gone' := gone + {c};
    var kept := Keep(a, gone, 1);
    assert Keep(a + b, gone, 1) == kept + b by {
      KeepSplit(a, b, gone, 1);
      KeepNoneGone(b, gone, c);
    }
    assert Keep(a + [x], gone', 1) == kept by {
      KeepSplit(a, [x], gone', 1);
      KeepAgree(a, gone', gone, 1);
      assert Keep([x], gone', c) == [];
    }
    assert Keep((a + [x]) + b, gone', 1) == kept + b by {
      KeepSplit(a + [x], b, gone', 1);
      KeepNoneGone(b, gone', c + 1);
    }
    assert row == (a + [x]) + b;
    assert RemoveColumn(row, c) == a + b;
  }

  /** Deleting columns one at a time from the highest index down removes
      exactly the columns that had those indices in the ORIGINAL row, and
      keeps every other column in its original order: each deletion shifts
      only columns that have already been dealt with. An index past the end
      of the row is skipped, and was past the end of the original row too. */
  lemma {:induction false} DeleteDescendingKeepsOthers(row: Row, cs: seq<int>)
    requires StrictlyDecreasing(cs)
    ensures DeleteEach(row, cs) == Keep(row, Elems(cs), 1)
  {
    if cs == [] {
      assert Elems(cs) == {};
      KeepNoneGone(row, {}, 1);
    } else {
      var c, rest := cs[0], cs[1..];
      var gone := Elems(rest);
      assert forall q | q in gone :: q < c by {
        forall q | q in gone ensures q < c {
          var j :| 0 <= j < |rest| && rest[j] == q;
          assert cs[j + 1] == q;
        }
      }
      assert Elems(cs) == gone + {c} by {
        assert cs == [c] + rest;
      }
      assert StrictlyDecreasing(rest);
      DeleteDescendingKeepsOthers(DeleteStep(row, c), rest);
      if 1 <= c <= |row| {
        KeepRemoveOne(row, c, gone);
      } else {
        KeepAgree(row, gone + {c}, gone, 1);
      }
    }
  }

  /** Removing a block of consecutive original columns `lo..hi` leaves the
      columns before and after it, joined. */
  lemma KeepBlockGone(row: Row, lo: int, hi: int, gone: set<int>)
    requires 1 <= lo <= hi + 1 && hi <= |row|
    requires forall q :: q in gone <==> lo <= q <= hi
    ensures Keep(row, gone, 1) == row[..lo - 1] + row[hi..]
  {
    var a, m, b := row[..lo - 1], row[lo - 1..hi], row[hi..];
    assert Keep(a + m, gone, 1) == a by {
      KeepSplit(a, m, gone, 1);
      KeepNoneGone(a, gone, 1);
      KeepAllGone(m, gone, lo);
    }
    assert Keep((a + m) + b, gone, 1) == a + b by {
      KeepSplit(a + m, b, gone, 1);
      KeepNoneGone(b, gone, hi + 1);
    }
    assert row == (a + m) + b;
  }
}

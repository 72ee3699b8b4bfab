/** The summary block the report appends two rows below the last valid row:
    seven lines of label, counting formula and unit, written cell by cell.
    A write outside the sheet is refused and ends the step; the writes made
    before it stay. */
module Summary {
  import opened Cells
  import opened Grids
  import opened Text
  import opened Columns
  import opened ReportSpec

  datatype Option<T> = None | Some(value: T)

  /** One `setValue` or `setFormula` on a single cell. */
  datatype Write = Write(row: int, col: int, value: Cell)

  /** The outcome of a series of writes: whether all were accepted, and the
      cells after the accepted ones. */
  datatype Applied = Applied(ok: bool, cells: Grid)

  /** The writes `ws` in order on a sheet of width `width`, stopping at the
      first one outside the sheet (on a grid that is not rectangular, a cell
      its row lacks counts as outside too). */
  function ApplyWrites(g: Grid, width: nat, ws: seq<Write>): (res: Applied)
    ensures |res.cells| == |g| && forall i | 0 <= i < |g| :: |res.cells[i]| == |g[i]|
    decreases |ws|
  {
    if ws == [] then Applied(true, g)
    else if !WriteFits(ws[0], |g|, width) || ws[0].col > |g[ws[0].row - 1]| then Applied(false, g)
    else ApplyWrites(SetCell(g, ws[0].row, ws[0].col, ws[0].value), width, ws[1..])
  }

  /** The write `w` lands on a cell of a sheet of `rows` rows and `width` columns. */
  predicate WriteFits(w: Write, rows: nat, width: nat)
  {
    1 <= w.row <= rows && 1 <= w.col <= width
  }

  /** The value the last write to (`r`, `c`) in `ws` puts there, if any. */
  function LastWrite(ws: seq<Write>, r: int, c: int): (v: Option<Cell>)
    ensures v.Some? <==> exists k | 0 <= k < |ws| :: ws[k].row == r && ws[k].col == c
  {
    if ws == [] then None
    else
      var later := LastWrite(ws[1..], r, c);
      assert forall k | 1 <= k < |ws| :: ws[k] == ws[1..][k - 1];
      if later.Some? then later
      else if ws[0].row == r && ws[0].col == c then Some(ws[0].value)
      else None
  }

  /** The writes on a rectangular sheet are all accepted exactly when each
      lands on the sheet; then each cell holds the last value written to it,
      and a cell nobody writes keeps its value. */
  lemma {:induction false} ApplyWritesAt(g: Grid, width: nat, ws: seq<Write>, r: int, c: int)
    requires IsRect(g, width)
    ensures ApplyWrites(g, width, ws).ok <==> forall k | 0 <= k < |ws| :: WriteFits(ws[k], |g|, width)
    ensures ApplyWrites(g, width, ws).ok ==>
      At(ApplyWrites(g, width, ws).cells, r, c) == match LastWrite(ws, r, c)
        case Some(v) => v
        case None => At(g, r, c)
    decreases |ws|
  {
    if ws != [] {
      var w := ws[0];
      if WriteFits(w, |g|, width) {
        var g' := SetCell(g, w.row, w.col, w.value);
        assert IsRect(g', width);
        ApplyWritesAt(g', width, ws[1..], r, c);
        assert forall k | 1 <= k < |ws| :: ws[k] == ws[1..][k - 1];
      }
    }
  }

  /** A refused write ends the step: the writes before it are applied, it and
      those after it are not, and nothing is undone. */
  lemma {:induction false} ApplyWritesStopsAtRefusal(g: Grid, width: nat, ws: seq<Write>, k: int)
    requires IsRect(g, width)
    requires 0 <= k < |ws| && !WriteFits(ws[k], |g|, width)
    requires forall j | 0 <= j < k :: WriteFits(ws[j], |g|, width)
    ensures !ApplyWrites(g, width, ws).ok
    ensures ApplyWrites(g, width, ws).cells == ApplyWrites(g, width, ws[..k]).cells
    decreases |ws|
  {
    if k > 0 {
      var w := ws[0];
      var g' := SetCell(g, w.row, w.col, w.value);
      assert IsRect(g', width);
      assert ws[1..][..k - 1] == ws[..k][1..];
      ApplyWritesStopsAtRefusal(g', width, ws[1..], k - 1);
    }
  }

  /** The first write of a series on a rectangular sheet: refused when its
      cell is outside the sheet, else made before the rest. */
  lemma ApplyOne(g: Grid, width: nat, w: Write, rest: seq<Write>)
    requires IsRect(g, width)
    ensures ApplyWrites(g, width, [w] + rest) ==
      if RangeFits(g, width, w.row, w.col, 1, 1) then ApplyWrites(SetCell(g, w.row, w.col, w.value), width, rest)
      else Applied(false, g)
  {
    assert ([w] + rest)[0] == w && ([w] + rest)[1..] == rest;
  }

  /** Writing `a` and then `b` is writing `a + b`, except that a refusal in
      `a` skips `b`. */
  lemma {:induction false} ApplyWritesAppend(g: Grid, width: nat, a: seq<Write>, b: seq<Write>)
    ensures ApplyWrites(g, width, a + b) ==
      var first := ApplyWrites(g, width, a);
      if first.ok then ApplyWrites(first.cells, width, b) else first
    decreases |a|
  {
    if a == [] {
      assert a + b == b;
    } else {
      assert (a + b)[0] == a[0] && (a + b)[1..] == a[1..] + b;
      var w := a[0];
      if WriteFits(w, |g|, width) && w.col <= |g[w.row - 1]| {
        ApplyWritesAppend(SetCell(g, w.row, w.col, w.value), width, a[1..], b);
      }
    }
  }

  /** The last write of `a + b` to a cell is `b`'s when `b` writes it, else `a`'s. */
  lemma {:induction false} LastWriteAppend(a: seq<Write>, b: seq<Write>, r: int, c: int)
    ensures LastWrite(a + b, r, c) == if LastWrite(b, r, c).Some? then LastWrite(b, r, c) else LastWrite(a, r, c)
    decreases |a|
  {
    if a == [] {
      assert a + b == b;
    } else {
      assert (a + b)[0] == a[0] && (a + b)[1..] == a[1..] + b;
      LastWriteAppend(a[1..], b, r, c);
    }
  }

  // ----- the summary block -----

  /** The block starts in column F. */
  const StartCol: int := 6
  /** The unit written after each labelled line. */
  const Unit: string := "人"
  /** The line labels; the fifth line is the blank separator. */
  const Labels: seq<string> := ["午前のみ利用", "午後のみ利用", "午前～午後利用", "合計", "", "当日キャンセル", "欠席"]
  /** The number of summary lines. */
  const LineCount: int := 7

  /** `getRange(row, col, numRows).getA1Notation()` for a single column of
      several rows, such as `H9:H11`. */
  function A1Column(row: nat, col: int, numRows: nat): (a1: string)
    requires 1 <= col <= 26 && numRows >= 2
  {
    [ColumnLetter(col)] + Decimal(row) + [':'] + [ColumnLetter(col)] + Decimal(row + numRows - 1)
  }

  /** The A1 text splits at its colon into the column letter with the first
      row and the column letter with the last row, read back as numbers. */
  lemma A1ColumnMeaning(row: nat, col: int, numRows: nat)
    requires 1 <= col <= 26 && numRows >= 2
    ensures var parts := Split(A1Column(row, col, numRows), ':');
      && |parts| == 2
      && |parts[0]| >= 2 && |parts[1]| >= 2
      && LetterIndex(parts[0][0]) == col && LetterIndex(parts[1][0]) == col
      && (forall i | 1 <= i < |parts[0]| :: '0' <= parts[0][i] <= '9')
      && (forall i | 1 <= i < |parts[1]| :: '0' <= parts[1][i] <= '9')
      && ParseDecimal(parts[0][1..]) == row
      && ParseDecimal(parts[1][1..]) == row + numRows - 1
  {
    var first := [ColumnLetter(col)] + Decimal(row);
    var last := [ColumnLetter(col)] + Decimal(row + numRows - 1);
    A1ColumnParts(row, col, numRows);
    assert first[1..] == Decimal(row);
    assert last[1..] == Decimal(row + numRows - 1);
    ParseDecimalOfDecimal(row);
    ParseDecimalOfDecimal(row + numRows - 1);
    LetterIndexOfColumnLetter(col);
  }

  /** The A1 text is two pieces around its one colon. */
  lemma A1ColumnParts(row: nat, col: int, numRows: nat)
    requires 1 <= col <= 26 && numRows >= 2
    ensures Split(A1Column(row, col, numRows), ':') ==
      [[ColumnLetter(col)] + Decimal(row), [ColumnLetter(col)] + Decimal(row + numRows - 1)]
  {
    var first := [ColumnLetter(col)] + Decimal(row);
    var last := [ColumnLetter(col)] + Decimal(row + numRows - 1);
    assert A1Column(row, col, numRows) == first + [':'] + last;
    assert ':' !in first && ':' !in last;
    SplitPiece(first, ':', last);
    SplitWhole(last, ':');
  }

  /** The formulas of the seven lines, over the data rows 3..`lastValidRow`. */
  function Formulas(lastValidRow: nat): (fs: seq<string>)
    ensures |fs| == LineCount
  {
    var last := Decimal(lastValidRow);
    [ "=COUNTIFS(F3:F" + last + ", \"<>\", G3:G" + last + ", \"<13:00\")",
      "=COUNTIFS(F3:F" + last + ", \">=13:00\")",
      "=COUNTIFS(F3:F" + last + ", \"<11:30\", G3:G" + last + ", \">=13:30\")",
      "=SUM(" + A1Column(lastValidRow + 2, StartCol + 2, 3) + ")",
      "",
      "=COUNTIF(E3:E" + last + ", \"" + Presence + "\")",
      "=COUNTIF(D3:D" + last + ", \"" + Presence + "\")" ]
  }

  /** The writes of one line at `row`: its label in F, its formula in H
      when it has one, and the unit in I when it has a label. */
  function LineOf(row: int, name: string, formula: string): (ws: seq<Write>)
  {
    [Write(row, StartCol, Str(name))]
    + (if formula != "" then [Write(row, StartCol + 2, Str(formula))] else [])
    + (if name != "" then [Write(row, StartCol + 3, Str(Unit))] else [])
  }

  /** The writes of line `k`, at row `lastValidRow + 2 + k`. */
  function LineWrites(lastValidRow: nat, k: int): (ws: seq<Write>)
    requires 0 <= k < LineCount
  {
    LineOf(lastValidRow + 2 + k, Labels[k], Formulas(lastValidRow)[k])
  }

  /** The writes of lines `k` to 6, in order. */
  function WritesFrom(lastValidRow: nat, k: int): seq<Write>
    requires 0 <= k <= LineCount
    decreases LineCount - k
  {
    if k == LineCount then [] else LineWrites(lastValidRow, k) + WritesFrom(lastValidRow, k + 1)
  }

  /** Making the writes of lines `k` to 6 is making line `k`'s and then,
      unless one of them was refused, those of lines `k + 1` to 6: when line
      `k` alone leads from `g` to `Applied(ok, h)`, the rest continues from `h`. */
  lemma WritesFromNext(g: Grid, width: nat, lastValidRow: nat, k: int, ok: bool, h: Grid)
    requires 0 <= k < LineCount
    requires Applied(ok, h) == ApplyWrites(g, width, LineOf(lastValidRow + 2 + k, Labels[k], Formulas(lastValidRow)[k]))
    ensures ApplyWrites(g, width, WritesFrom(lastValidRow, k)) ==
      if ok then ApplyWrites(h, width, WritesFrom(lastValidRow, k + 1)) else Applied(false, h)
  {
    ApplyWritesAppend(g, width, LineWrites(lastValidRow, k), WritesFrom(lastValidRow, k + 1));
  }

  /** All writes of the summary block, in the order the script makes them. */
  function SummaryWrites(lastValidRow: nat): seq<Write>
  {
    WritesFrom(lastValidRow, 0)
  }

  /** The declared layout of the block: line `k` sits at row
      `lastValidRow + 2 + k` with its label in F, its formula (if any) in H
      and the unit in I (if it has a label); nothing else is written. */
  function SummaryCell(lastValidRow: nat, r: int, c: int): Option<Cell>
  {
    var k := r - lastValidRow - 2;
    if 0 <= k < LineCount then LineCell(r, Labels[k], Formulas(lastValidRow)[k], r, c)
    else None
  }

  /** The cells one line writes: its label in F, its formula in H when it
      has one, the unit in I when it has a label, and nothing else. */
  function LineCell(row: int, name: string, formula: string, r: int, c: int): Option<Cell>
  {
    if r != row then None
    else if c == StartCol then Some(Str(name))
    else if c == StartCol + 2 && formula != "" then Some(Str(formula))
    else if c == StartCol + 3 && name != "" then Some(Str(Unit))
    else None
  }

  /** The last write of one line to a cell is the line's cell there. */
  lemma LineOfLayout(row: int, name: string, formula: string, r: int, c: int)
    ensures LastWrite(LineOf(row, name, formula), r, c) == LineCell(row, name, formula, r, c)
  {
    var a := [Write(row, StartCol, Str(name))];
    var b := if formula != "" then [Write(row, StartCol + 2, Str(formula))] else [];
    var u := if name != "" then [Write(row, StartCol + 3, Str(Unit))] else [];
    LastWriteAppend(a + b, u, r, c);
    LastWriteAppend(a, b, r, c);
  }

  /** Line `k`'s writes land exactly on line `k`'s cells of the layout. */
  lemma LineWritesLayout(lastValidRow: nat, k: int, r: int, c: int)
    requires 0 <= k < LineCount
    ensures LastWrite(LineWrites(lastValidRow, k), r, c) ==
      if r == lastValidRow + 2 + k then SummaryCell(lastValidRow, r, c) else None
  {
    var row, name, formula := lastValidRow + 2 + k, Labels[k], Formulas(lastValidRow)[k];
    assert LineWrites(lastValidRow, k) == LineOf(row, name, formula);
    LineOfLayout(row, name, formula, r, c);
    if r == row {
      assert SummaryCell(lastValidRow, r, c) == LineCell(r, name, formula, r, c);
    } else {
      assert LineCell(row, name, formula, r, c) == None;
    }
  }

  /** The writes of lines `k` onward produce the layout from line `k` on. */
  lemma {:induction false} WritesFromLayout(lastValidRow: nat, k: int, r: int, c: int)
    requires 0 <= k <= LineCount
    ensures LastWrite(WritesFrom(lastValidRow, k), r, c) ==
      if r >= lastValidRow + 2 + k then SummaryCell(lastValidRow, r, c) else None
    decreases LineCount - k
  {
    if k < LineCount {
      WritesFromLayout(lastValidRow, k + 1, r, c);
      LineWritesLayout(lastValidRow, k, r, c);
      LastWriteAppend(LineWrites(lastValidRow, k), WritesFrom(lastValidRow, k + 1), r, c);
    }
  }

  /** The script's writes produce exactly the declared layout. */
  lemma SummaryWritesLayout(lastValidRow: nat, r: int, c: int)
    ensures LastWrite(SummaryWrites(lastValidRow), r, c) == SummaryCell(lastValidRow, r, c)
  {
    WritesFromLayout(lastValidRow, 0, r, c);
  }

  /** Every write of the block lands on rows `lastValidRow + 2` to
      `lastValidRow + 8` and columns F, H and I. */
  lemma {:induction false} SummaryWritesRange(lastValidRow: nat, k: int)
    requires 0 <= k <= LineCount
    ensures forall j | 0 <= j < |WritesFrom(lastValidRow, k)| ::
      var w := WritesFrom(lastValidRow, k)[j];
      lastValidRow + 2 + k <= w.row <= lastValidRow + 8 && w.col in {6, 8, 9}
    decreases LineCount - k
  {
    if k < LineCount {
      SummaryWritesRange(lastValidRow, k + 1);
      var a: seq<Write> := LineWrites(lastValidRow, k);
      var b: seq<Write> := WritesFrom(lastValidRow, k + 1);
      LineOfRange(lastValidRow + 2 + k, Labels[k], Formulas(lastValidRow)[k]);
      forall j | 0 <= j < |a + b|
        ensures lastValidRow + 2 + k <= (a + b)[j].row <= lastValidRow + 8 && (a + b)[j].col in {6, 8, 9}
      {
        if j < |a| {
          assert (a + b)[j] == a[j];
        } else {
          assert (a + b)[j] == b[j - |a|];
        }
      }
    }
  }

  /** The writes of one line stay on its row, in columns F, H and I. */
  lemma LineOfRange(row: int, name: string, formula: string)
    ensures forall j | 0 <= j < |LineOf(row, name, formula)| ::
      LineOf(row, name, formula)[j].row == row && LineOf(row, name, formula)[j].col in {6, 8, 9}
  {
  }

  /** The total line sums column H over the three rows right above it, which
      hold the formulas of the first three lines; the separator line has a
      blank label, no formula and no unit. */
  lemma SummaryTotalLine(lastValidRow: nat)
    ensures var s := lastValidRow + 2;
      && SummaryCell(lastValidRow, s + 3, StartCol) == Some(Str("合計"))
      && SummaryCell(lastValidRow, s + 3, StartCol + 2) == Some(Str("=SUM(" + A1Column(s, 8, 3) + ")"))
      && (forall k | 0 <= k < 3 :: SummaryCell(lastValidRow, s + k, 8) == Some(Str(Formulas(lastValidRow)[k])))
      && SummaryCell(lastValidRow, s + 4, StartCol) == Some(Str(""))
      && SummaryCell(lastValidRow, s + 4, StartCol + 2) == None
      && SummaryCell(lastValidRow, s + 4, StartCol + 3) == None
  {
    var s := lastValidRow + 2;
    var fs := Formulas(lastValidRow);
    forall k | 0 <= k < 3 ensures fs[k] != "" {
      assert fs[k][0] == '=';
    }
  }

  /** `addSummary`: find the last valid row, check the total line's range
      H(s):H(s+2) when its formula is built, then make the writes. */
  function SummaryStep(g: Grid, width: nat): (res: Applied)
  {
    if !KeyColumnReadable(g, width) then Applied(false, g)
    else
      var lastValidRow := LastValidRow(g);
      if !RangeFits(g, width, lastValidRow + 2, StartCol + 2, 3, 1) then Applied(false, g)
      else ApplyWrites(g, width, SummaryWrites(lastValidRow))
  }

  /** The writes of the block are all accepted exactly when the sheet has
      the rows down to `lastValidRow + 8` and column I. */
  lemma SummaryWritesFit(g: Grid, width: nat, lastValidRow: nat)
    requires IsRect(g, width)
    ensures ApplyWrites(g, width, SummaryWrites(lastValidRow)).ok <==>
      lastValidRow + 8 <= |g| && width >= StartCol + 3
  {
    var ws := SummaryWrites(lastValidRow);
    ApplyWritesAt(g, width, ws, 0, 0);
    SummaryWritesRange(lastValidRow, 0);
    assert LastWrite(ws, lastValidRow + 8, StartCol).Some? by {
      SummaryWritesLayout(lastValidRow, lastValidRow + 8, StartCol);
    }
    assert LastWrite(ws, lastValidRow + 2, StartCol + 3).Some? by {
      SummaryWritesLayout(lastValidRow, lastValidRow + 2, StartCol + 3);
    }
  }

  /** After the accepted writes of the block each cell holds the layout's
      value, or its old value where the layout has none. */
  lemma SummaryWritesCells(g: Grid, width: nat, lastValidRow: nat)
    requires IsRect(g, width) && ApplyWrites(g, width, SummaryWrites(lastValidRow)).ok
    ensures forall r, c ::
      At(ApplyWrites(g, width, SummaryWrites(lastValidRow)).cells, r, c) == match SummaryCell(lastValidRow, r, c)
        case Some(v) => v
        case None => At(g, r, c)
  {
    var ws := SummaryWrites(lastValidRow);
    forall r, c ensures At(ApplyWrites(g, width, ws).cells, r, c) == match SummaryCell(lastValidRow, r, c)
      case Some(v) => v
      case None => At(g, r, c)
    {
      ApplyWritesAt(g, width, ws, r, c);
      SummaryWritesLayout(lastValidRow, r, c);
    }
  }

  /** The summary step succeeds exactly when the key column is readable and
      the sheet has the rows down to `lastValidRow + 8` and column I; then the
      block holds the declared layout and every other cell is unchanged. */
  lemma SummaryStepOutcome(g: Grid, width: nat)
    requires IsRect(g, width)
    ensures SummaryStep(g, width).ok <==>
      KeyColumnReadable(g, width) && LastValidRow(g) + 8 <= |g| && width >= StartCol + 3
    ensures SummaryStep(g, width).ok ==> forall r, c ::
      At(SummaryStep(g, width).cells, r, c) == match SummaryCell(LastValidRow(g), r, c)
        case Some(v) => v
        case None => At(g, r, c)
  {
    if KeyColumnReadable(g, width) {
      var lvr := LastValidRow(g);
      SummaryWritesFit(g, width, lvr);
      if SummaryStep(g, width).ok {
        SummaryWritesCells(g, width, lvr);
      }
    }
  }
}

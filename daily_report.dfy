/** The report script's steps as it runs them against the active sheet: each
    reads and writes the sheet through the host operations and is proved to
    leave the sheet as the matching function of module ReportSpec or Summary
    says, or, when the host refuses a range, to report the failure. */
module DailyReport {
  import opened Cells
  import opened Grids
  import opened Text
  import opened Columns
  import opened Sheets
  import opened ReportSpec
  import opened Summary
  import opened Pipeline

  /** `processDailyReport`: the column deletions, then the steps in the
      script's order; the first step that throws ends the run. */
  method ProcessDailyReport(sheet: Sheet) returns (ok: bool)
    requires sheet.Valid()
    modifies sheet
    ensures sheet.Valid()
    ensures Outcome(ok, sheet.cells, sheet.width) == Report(old(sheet.cells), old(sheet.width))
  {
    PruneColumns(sheet, ColumnLetters);
    ok := RunSteps(sheet);
  }

  /** The steps of `processDailyReport` after the column deletions. */
  method RunSteps(sheet: Sheet) returns (ok: bool)
    requires sheet.Valid()
    modifies sheet
    ensures sheet.Valid()
    ensures Outcome(ok, sheet.cells, sheet.width) == Steps(old(sheet.cells), old(sheet.width))
  {
    ok := ReplaceBoolean(sheet);
    if !ok {
      return;
    }
    ok := ClearBasedOnCondition(sheet);
    if !ok {
      return;
    }
    ok := AddSequenceNumbers(sheet);
    if !ok {
      return;
    }
    ok := RunLayoutSteps(sheet);
  }

  /** The steps of `processDailyReport` from `formatAndCombineText` on. */
  method RunLayoutSteps(sheet: Sheet) returns (ok: bool)
    requires sheet.Valid()
    modifies sheet
    ensures sheet.Valid()
    ensures Outcome(ok, sheet.cells, sheet.width) == LayoutSteps(old(sheet.cells), old(sheet.width))
  {
    ok := FormatAndCombineText(sheet);
    if !ok {
      return;
    }
    ok := InsertHeaders(sheet);
    if !ok {
      return;
    }
    ok := SetColumnWidthsAndMerge(sheet);
    if !ok {
      return;
    }
    ok := SetBorders(sheet);
    if !ok {
      return;
    }
    ok := AddSummary(sheet);
  }

  /** The column deletions at the start of `processDailyReport`: the columns
      named by `letters`, highest first; a deletion the sheet refuses is
      skipped and the others still happen. */
  method PruneColumns(sheet: Sheet, letters: seq<char>)
    requires sheet.Valid()
    modifies sheet
    ensures sheet.Valid()
    ensures sheet.cells == DeleteColumns(old(sheet.cells), PruneOrder(letters))
    ensures sheet.width == WidthAfter(old(sheet.width), PruneOrder(letters))
  {
    var order := SortDescending(ColumnIndices(letters));
    ghost var g0, w0 := sheet.cells, sheet.width;
    var k := 0;
    while k < |order|
      invariant 0 <= k <= |order|
      invariant sheet.Valid()
      invariant DeleteColumns(sheet.cells, order[k..]) == DeleteColumns(g0, order)
      invariant WidthAfter(sheet.width, order[k..]) == WidthAfter(w0, order)
    {
      assert order[k..][0] == order[k] && order[k..][1..] == order[k + 1..];
      var deleted := sheet.DeleteColumn(order[k]);
      k := k + 1;
    }
    assert order[k..] == [];
  }

  /** `getValidDataRange`: the sheet's last row and the last valid row. */
  method GetValidDataRange(sheet: Sheet) returns (ok: bool, lastRow: nat, lastValidRow: nat)
    requires sheet.Valid()
    ensures ok == KeyColumnReadable(sheet.cells, sheet.width)
    ensures ok ==> lastRow == LastRow(sheet.cells) && lastValidRow == LastValidRow(sheet.cells)
  {
    lastRow := sheet.GetLastRow();
    lastValidRow := FirstDataRow;
    if lastRow == 0 {
      // `C3:C0` names no range
      return false, lastRow, lastValidRow;
    }
    // the host reads the rows between row 3 and the last row, whichever is lower
    var top := if lastRow < FirstDataRow then lastRow else FirstDataRow;
    var bottom := if lastRow < FirstDataRow then FirstDataRow else lastRow;
    var cColumn;
    ok, cColumn := sheet.GetValues(top, KeyColumn, bottom - top + 1, 1);
    if !ok {
      return;
    }
    var i := 0;
    while i < |cColumn|
      invariant 0 <= i <= |cColumn|
      invariant lastValidRow == if lastRow >= FirstDataRow then KeyRowUpTo(sheet.cells, i + 2) else FirstDataRow
    {
      if lastRow < FirstDataRow && i >= 1 {
        NoContentBelowLastRow(sheet.cells, top + i, KeyColumn);
        KeyCellHasContent(cColumn[i][0]);
      }
      if IsKeyCell(cColumn[i][0]) {
        lastValidRow := i + 3;
      }
      i := i + 1;
    }
  }

  /** `replaceBoolean`: the block of rows 1..lastValidRow and every used
      column is read, its booleans rewritten, and the block written back. */
  method ReplaceBoolean(sheet: Sheet) returns (ok: bool)
    requires sheet.Valid()
    modifies sheet
    ensures sheet.Valid() && sheet.width == old(sheet.width)
    ensures ok == ReplaceBooleanSucceeds(old(sheet.cells), old(sheet.width))
    ensures sheet.cells == if ok then ReplaceBooleanStep(old(sheet.cells)) else old(sheet.cells)
  {
    var lastRow, lastValidRow;
    ok, lastRow, lastValidRow := GetValidDataRange(sheet);
    if !ok {
      return;
    }
    ReadableBounds(sheet.cells, sheet.width);
    var lastColumn := sheet.GetLastColumn();
    ok := RewriteBlock(sheet, lastValidRow, lastColumn);
  }

  /** Rows 1..`rows` of columns 1..`cols` read, their booleans rewritten, and
      written back where they were read. */
  method RewriteBlock(sheet: Sheet, rows: nat, cols: nat) returns (ok: bool)
    requires sheet.Valid() && 1 <= rows <= |sheet.cells| && 1 <= cols <= sheet.width
    modifies sheet
    ensures ok && sheet.Valid() && sheet.width == old(sheet.width)
    ensures sheet.cells == ReplacedBooleans(old(sheet.cells), rows, cols)
  {
    ghost var g0 := sheet.cells;
    var values;
    ok, values := sheet.GetValues(1, 1, rows, cols);
    var rewritten := RewriteBooleans(values);
    PasteNormalizedBlock(g0, sheet.width, values, rewritten, rows, cols);
    assert |rewritten[0]| == cols && IsRect(rewritten, cols);
    ok := sheet.SetValues(1, 1, rewritten);
  }

  /** The two `forEach` loops of `replaceBoolean` over the block read from
      the sheet: every cell rewritten by `NormalizeBoolean`. */
  method RewriteBooleans(values: Grid) returns (result: Grid)
    ensures |result| == |values|
    ensures forall i | 0 <= i < |values| :: |result[i]| == |values[i]|
    ensures forall i, j | 0 <= i < |values| && 0 <= j < |values[i]| :: result[i][j] == NormalizeBoolean(values[i][j])
  {
    result := values;
    var i := 0;
    while i < |result|
      invariant 0 <= i <= |result| == |values|
      invariant forall p | 0 <= p < |values| :: |result[p]| == |values[p]|
      invariant forall p, q | 0 <= p < |values| && 0 <= q < |values[p]| ::
        result[p][q] == if p < i then NormalizeBoolean(values[p][q]) else values[p][q]
    {
      var row := result[i];
      var j := 0;
      while j < |row|
        invariant 0 <= j <= |row| == |values[i]|
        invariant forall q | 0 <= q < |row| :: row[q] == if q < j then NormalizeBoolean(values[i][q]) else values[i][q]
      {
        if row[j] == Bool(true) {
          row := row[j := Str(Presence)];
        } else if row[j] == Bool(false) {
          row := row[j := Str("")];
        }
        j := j + 1;
      }
      result := result[i := row];
      i := i + 1;
    }
  }

  /** `clearBasedOnCondition`: columns D and E of rows 3..lastValidRow are
      read, then F and G are cleared on each row where either holds the glyph. */
  method ClearBasedOnCondition(sheet: Sheet) returns (ok: bool)
    requires sheet.Valid()
    modifies sheet
    ensures sheet.Valid() && sheet.width == old(sheet.width)
    ensures ok == ClearSucceeds(old(sheet.cells), old(sheet.width))
    ensures sheet.cells == if ok then ClearStep(old(sheet.cells)) else old(sheet.cells)
  {
    var lastRow, lastValidRow;
    ok, lastRow, lastValidRow := GetValidDataRange(sheet);
    if !ok {
      return;
    }
    ReadableBounds(sheet.cells, sheet.width);
    ok := ClearRows(sheet, lastValidRow);
  }

  /** The reads of columns D and E of rows 3..`lastValidRow` and the loop
      over them. */
  method ClearRows(sheet: Sheet, lastValidRow: int) returns (ok: bool)
    requires sheet.Valid() && FirstDataRow <= lastValidRow <= |sheet.cells|
    modifies sheet
    ensures sheet.Valid() && sheet.width == old(sheet.width)
    ensures ok == (sheet.width >= CancelColumn &&
                   (sheet.width >= TimeInColumn + 1 || NoneQualify(old(sheet.cells), lastValidRow)))
    ensures sheet.cells == if ok then ClearedOnCondition(old(sheet.cells), lastValidRow) else old(sheet.cells)
  {
    var valuesD, valuesE;
    ok, valuesD := sheet.GetValues(FirstDataRow, AbsenceColumn, lastValidRow - 2, 1);
    if !ok {
      return;
    }
    ok, valuesE := sheet.GetValues(FirstDataRow, CancelColumn, lastValidRow - 2, 1);
    if !ok {
      return;
    }
    ok := ClearMarkedRows(sheet, valuesD, valuesE);
  }

  /** The loop of `clearBasedOnCondition` over the D and E values read from
      rows 3, 4, ...: F and G of each row where either holds the glyph are
      cleared. The first clear the sheet refuses (it has no column G) ends
      the loop, and then no row has been cleared yet. */
  method ClearMarkedRows(sheet: Sheet, valuesD: Grid, valuesE: Grid) returns (ok: bool)
    requires sheet.Valid() && |valuesD| == |valuesE| && |valuesD| + 2 <= |sheet.cells|
    requires IsRect(valuesD, 1) && IsRect(valuesE, 1)
    requires forall i | 0 <= i < |valuesD| ::
      valuesD[i][0] == At(sheet.cells, i + 3, AbsenceColumn) && valuesE[i][0] == At(sheet.cells, i + 3, CancelColumn)
    modifies sheet
    ensures sheet.Valid() && sheet.width == old(sheet.width)
    ensures ok == (sheet.width >= TimeInColumn + 1 || NoneQualify(old(sheet.cells), |valuesD| + 2))
    ensures sheet.cells == if ok then ClearedOnCondition(old(sheet.cells), |valuesD| + 2) else old(sheet.cells)
  {
    ghost var g0 := sheet.cells;
    var i := 0;
    while i < |valuesD|
      invariant 0 <= i <= |valuesD|
      invariant sheet.Valid() && sheet.width == old(sheet.width)
      invariant sheet.cells == ClearedOnCondition(g0, i + 2)
      invariant sheet.width < TimeInColumn + 1 ==> NoneQualify(g0, i + 2)
    {
      ok := ClearIfMarked(sheet, i + 3, valuesD[i][0], valuesE[i][0], g0);
      if !ok {
        ClearedNothing(g0, i + 2);
        return;
      }
      if sheet.width < TimeInColumn + 1 {
        NoneQualifyNext(g0, i + 2);
      }
      i := i + 1;
    }
    ok := true;
  }

  /** One turn of the loop of `clearBasedOnCondition`: F and G of `row` are
      cleared when `d` or `e`, its D and E cells, hold the glyph. */
  method ClearIfMarked(sheet: Sheet, row: int, d: Cell, e: Cell, ghost g0: Grid) returns (ok: bool)
    requires sheet.Valid() && IsRect(g0, sheet.width) && 3 <= row <= |g0|
    requires sheet.cells == ClearedOnCondition(g0, row - 1)
    requires d == At(g0, row, AbsenceColumn) && e == At(g0, row, CancelColumn)
    modifies sheet
    ensures sheet.Valid() && sheet.width == old(sheet.width)
    ensures ok ==> sheet.cells == ClearedOnCondition(g0, row)
    ensures ok && sheet.width < TimeInColumn + 1 ==> !Qualifies(g0, row)
    ensures !ok ==> Qualifies(g0, row) && sheet.width < TimeInColumn + 1 && sheet.cells == old(sheet.cells)
  {
    ghost var before := sheet.cells;
    if d == Str(Presence) || e == Str(Presence) {
      assert Qualifies(g0, row);
      if sheet.width >= TimeInColumn + 1 {
        ClearedOnConditionNext(g0, sheet.width, row - 1);
        assert ClearedOnCondition(g0, row) == Paste(before, row, TimeInColumn, Filled(1, 2, Empty));
      }
      ok := sheet.ClearContent(row, TimeInColumn, 1, 2);
      assert ok == (sheet.width >= TimeInColumn + 1);
    } else {
      ClearedOnConditionSkip(g0, row - 1);
      ok := true;
    }
  }

  /** `addSequenceNumbers`: 1, 2, 3, ... down column A from row 3 to the
      last valid row, one cell at a time. */
  method AddSequenceNumbers(sheet: Sheet) returns (ok: bool)
    requires sheet.Valid()
    modifies sheet
    ensures sheet.Valid() && sheet.width == old(sheet.width)
    ensures ok == NumberSucceeds(old(sheet.cells), old(sheet.width))
    ensures sheet.cells == if ok then NumberStep(old(sheet.cells)) else old(sheet.cells)
  {
    var lastRow, lastValidRow;
    ok, lastRow, lastValidRow := GetValidDataRange(sheet);
    if !ok {
      return;
    }
    ReadableBounds(sheet.cells, sheet.width);
    NumberRows(sheet, lastValidRow);
  }

  /** The loop of `addSequenceNumbers`: rows 3..`lastValidRow` get 1, 2, 3, ... */
  method NumberRows(sheet: Sheet, lastValidRow: int)
    requires sheet.Valid() && sheet.width >= 1 && 2 <= lastValidRow <= |sheet.cells|
    modifies sheet
    ensures sheet.Valid() && sheet.width == old(sheet.width)
    ensures sheet.cells == Numbered(old(sheet.cells), lastValidRow)
  {
    ghost var g0 := sheet.cells;
    var sequenceNumber := 1;
    var row := FirstDataRow;
    NumberedNone(g0, row - 1);
    while row <= lastValidRow
      invariant FirstDataRow <= row <= lastValidRow + 1
      invariant sequenceNumber == row - 2
      invariant sheet.Valid() && sheet.width == old(sheet.width)
      invariant sheet.cells == Numbered(g0, row - 1)
    {
      NumberedNext(g0, sheet.width, row - 1);
      var written := sheet.SetValue(row, 1, Num(sequenceNumber as real));
      sequenceNumber := sequenceNumber + 1;
      row := row + 1;
    }
  }

  /** `formatAndCombineText`: for rows 3..lastRow the texts of H..O are
      merged into H; then columns O down to I are deleted. */
  method FormatAndCombineText(sheet: Sheet) returns (ok: bool)
    requires sheet.Valid()
    modifies sheet
    ensures sheet.Valid()
    ensures ok == CombineSucceeds(old(sheet.width))
    ensures ok ==> sheet.cells == CombineStep(old(sheet.cells)) && sheet.width == old(sheet.width) - 7
    ensures !ok ==> sheet.cells == old(sheet.cells) && sheet.width == old(sheet.width)
  {
    var lastRow := sheet.GetLastRow();
    ok := MergeRows(sheet, lastRow);
    if !ok {
      return;
    }
    ok := DeleteMergedColumns(sheet);
  }

  /** The first loop of `formatAndCombineText`: rows 3..`lastRow` get the
      merged text of their H..O in H. On a sheet without column O the first
      read is refused and nothing changes. */
  method MergeRows(sheet: Sheet, lastRow: int) returns (ok: bool)
    requires sheet.Valid() && lastRow <= |sheet.cells|
    modifies sheet
    ensures sheet.Valid() && sheet.width == old(sheet.width)
    ensures ok == (CombineSucceeds(sheet.width) || lastRow < FirstDataRow)
    ensures sheet.cells == if ok then MergedAt(old(sheet.cells), lastRow) else old(sheet.cells)
  {
    ghost var g0, w0 := sheet.cells, sheet.width;
    var row := FirstDataRow;
    MergedAtNone(g0, row - 1);
    while row <= lastRow
      invariant FirstDataRow <= row <= lastRow + 1 || (row == FirstDataRow && lastRow < FirstDataRow)
      invariant sheet.Valid() && sheet.width == w0
      invariant sheet.cells == MergedAt(g0, row - 1)
      invariant !CombineSucceeds(w0) ==> row == FirstDataRow
    {
      var values;
      ok, values := sheet.GetValues(row, SpanFirst, 1, SpanWidth);
      if !ok {
        return;
      }
      MergedAtNext(g0, w0, row - 1);
      assert values[0] == g0[row - 1][SpanFirst - 1..SpanFirst + SpanWidth - 1];
      var combinedText := MergedText(values[0]);
      var written := sheet.SetValue(row, SpanFirst, Str(combinedText));
      row := row + 1;
    }
    if lastRow < FirstDataRow {
      MergedAtNone(g0, lastRow);
    }
    ok := true;
  }

  /** The second loop of `formatAndCombineText`: `deleteColumn` for O down
      to I. On a sheet without column O the first deletion is refused and
      nothing changes. */
  method DeleteMergedColumns(sheet: Sheet) returns (ok: bool)
    requires sheet.Valid()
    modifies sheet
    ensures sheet.Valid()
    ensures ok == CombineSucceeds(old(sheet.width))
    ensures ok ==> sheet.cells == DropMerged(old(sheet.cells)) && sheet.width == old(sheet.width) - 7
    ensures !ok ==> sheet.cells == old(sheet.cells) && sheet.width == old(sheet.width)
  {
    ghost var g0, w0 := sheet.cells, sheet.width;
    ghost var target := DeleteColumns(g0, MergeDeleteOrder());
    var col := SpanFirst + SpanWidth - 1;
    while col >= SpanFirst + 1
      invariant SpanFirst <= col <= SpanFirst + SpanWidth - 1
      invariant sheet.Valid()
      invariant DeleteColumns(sheet.cells, CountDown(col, SpanFirst + 1)) == target
      invariant sheet.width == w0 - (SpanFirst + SpanWidth - 1 - col)
      invariant !CombineSucceeds(w0) ==> col == SpanFirst + SpanWidth - 1 && sheet.cells == g0
    {
      ok := sheet.DeleteColumn(col);
      if !ok {
        return;
      }
      col := col - 1;
    }
    ok := true;
    MergeDeleteSheet(g0, w0);
  }

  /** `insertHeaders`: the eight labels into B2:I2. */
  method InsertHeaders(sheet: Sheet) returns (ok: bool)
    requires sheet.Valid()
    modifies sheet
    ensures sheet.Valid() && sheet.width == old(sheet.width)
    ensures ok == HeaderSucceeds(old(sheet.cells), old(sheet.width))
    ensures sheet.cells == if ok then HeaderStep(old(sheet.cells)) else old(sheet.cells)
  {
    ok := sheet.SetValues(2, 2, HeaderBlock());
  }

  /** `setColumnWidthsAndMerge`, as far as the sheet's values go: it finds
      the last valid row and names the columns G..I and the range
      H2:I<lastValidRow>, and throws when they are not in the sheet. */
  method SetColumnWidthsAndMerge(sheet: Sheet) returns (ok: bool)
    requires sheet.Valid()
    ensures ok == ColumnWidthsFit(sheet.cells, sheet.width)
  {
    var lastRow, lastValidRow;
    ok, lastRow, lastValidRow := GetValidDataRange(sheet);
    if !ok {
      return;
    }
    ok := sheet.Fits(2, SpanFirst, lastValidRow - 1, 2);
  }

  /** `setBorders`, as far as the sheet's values go: it finds the last valid
      row and names the range A2:I<lastValidRow>, and throws when it is not
      in the sheet. */
  method SetBorders(sheet: Sheet) returns (ok: bool)
    requires sheet.Valid()
    ensures ok == BordersFit(sheet.cells, sheet.width)
  {
    var lastRow, lastValidRow;
    ok, lastRow, lastValidRow := GetValidDataRange(sheet);
    if !ok {
      return;
    }
    ok := sheet.Fits(2, 1, lastValidRow - 1, 9);
  }

  /** `addSummary`: the seven summary lines from two rows below the last
      valid row. */
  method AddSummary(sheet: Sheet) returns (ok: bool)
    requires sheet.Valid()
    modifies sheet
    ensures sheet.Valid() && sheet.width == old(sheet.width)
    ensures ok == SummaryStep(old(sheet.cells), old(sheet.width)).ok
    ensures sheet.cells == SummaryStep(old(sheet.cells), old(sheet.width)).cells
  {
    var lastRow, lastValidRow;
    ok, lastRow, lastValidRow := GetValidDataRange(sheet);
    if !ok {
      return;
    }
    // the total line's formula names the range H(startRow):H(startRow + 2)
    if !sheet.Fits(lastValidRow + 2, StartCol + 2, 3, 1) {
      return false;
    }
    ok := WriteSummaryLines(sheet, lastValidRow);
  }

  /** The `forEach` of `addSummary`: line after line from `lastValidRow + 2`;
      the first write the sheet refuses ends the step. */
  method WriteSummaryLines(sheet: Sheet, lastValidRow: nat) returns (ok: bool)
    requires sheet.Valid()
    modifies sheet
    ensures sheet.Valid() && sheet.width == old(sheet.width)
    ensures Applied(ok, sheet.cells) == ApplyWrites(old(sheet.cells), old(sheet.width), SummaryWrites(lastValidRow))
  {
    ghost var g0, w0 := sheet.cells, sheet.width;
    var index := 0;
    while index < LineCount
      invariant 0 <= index <= LineCount
      invariant sheet.Valid() && sheet.width == w0
      invariant ApplyWrites(sheet.cells, w0, WritesFrom(lastValidRow, index)) == ApplyWrites(g0, w0, SummaryWrites(lastValidRow))
    {
      ok := WriteNumberedLine(sheet, lastValidRow, index);
      if !ok {
        return;
      }
      index := index + 1;
    }
    ok := true;
  }

  /** Line `index` of the summary, at row `lastValidRow + 2 + index`: what
      is left of the summary after it is the lines that follow it. */
  method WriteNumberedLine(sheet: Sheet, lastValidRow: nat, index: nat) returns (ok: bool)
    requires sheet.Valid() && index < LineCount
    modifies sheet
    ensures sheet.Valid() && sheet.width == old(sheet.width)
    ensures ApplyWrites(old(sheet.cells), sheet.width, WritesFrom(lastValidRow, index)) ==
      if ok then ApplyWrites(sheet.cells, sheet.width, WritesFrom(lastValidRow, index + 1))
      else Applied(false, sheet.cells)
  {
    ghost var before := sheet.cells;
    var formulas := Formulas(lastValidRow);
    ok := WriteSummaryLine(sheet, lastValidRow + 2 + index, Labels[index], formulas[index]);
    WritesFromNext(before, sheet.width, lastValidRow, index, ok, sheet.cells);
  }

  /** One line of the summary: the label, then the formula if there is one,
      then the unit if it has a name; a refused write ends the line. */
  method WriteSummaryLine(sheet: Sheet, row: int, name: string, formula: string) returns (ok: bool)
    requires sheet.Valid()
    modifies sheet
    ensures sheet.Valid() && sheet.width == old(sheet.width)
    ensures Applied(ok, sheet.cells) == ApplyWrites(old(sheet.cells), old(sheet.width), LineOf(row, name, formula))
  {
    ghost var g0 := sheet.cells;
    ghost var rest2: seq<Write> := if name != "" then [Write(row, StartCol + 3, Str(Unit))] else [];
    ghost var rest1: seq<Write> := (if formula != "" then [Write(row, StartCol + 2, Str(formula))] else []) + rest2;
    assert LineOf(row, name, formula) == [Write(row, StartCol, Str(name))] + rest1;
    ApplyOne(g0, sheet.width, Write(row, StartCol, Str(name)), rest1);
    ok := sheet.SetValue(row, StartCol, Str(name));
    if !ok {
      return;
    }
    if formula != "" {
      ApplyOne(sheet.cells, sheet.width, Write(row, StartCol + 2, Str(formula)), rest2);
      ok := sheet.SetValue(row, StartCol + 2, Str(formula));
      if !ok {
        return;
      }
    } else {
      assert rest1 == rest2;
    }
    if name != "" {
      ApplyOne(sheet.cells, sheet.width, Write(row, StartCol + 3, Str(Unit)), []);
      ok := sheet.SetValue(row, StartCol + 3, Str(Unit));
    }
  }
}

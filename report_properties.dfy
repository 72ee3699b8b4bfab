/** What a whole run of the report promises: when it succeeds, and what the
    sheet then holds. */
module ReportProperties {
  import opened Cells
  import opened Grids
  import opened ReportSpec
  import opened Summary
  import opened Pipeline

  // ----- one cell through each step -----

  /** Within the rows up to the last valid row the boolean step rewrites
      every cell, used columns or not: the cells right of the last used
      column hold nothing, so nothing there changes. */
  lemma BooleansAt(g: Grid, r: int, c: int)
    requires 1 <= r <= LastValidRow(g)
    ensures At(ReplaceBooleanStep(g), r, c) == NormalizeBoolean(At(g, r, c))
  {
    ReplacedBooleansAt(g, LastValidRow(g), LastColumn(g), r, c);
    if c > LastColumn(g) {
      NoContentRightOfLastColumn(g, r, c);
    }
  }

  /** A cell of a row split as `a`, then `x`, then `b`. */
  lemma RowPieces(row: Row, a: Row, x: Cell, b: Row, j: int)
    requires row == a + [x] + b && 0 <= j < |row|
    ensures row[j] == if j < |a| then a[j] else if j == |a| then x else b[j - |a| - 1]
  {
  }

  /** After the merge step each cell of a row is a cell of the same row
      before it, or the merged text. */
  lemma CombineCell(g: Grid, width: nat, r: int, c: int)
    requires IsRect(g, width) && CombineSucceeds(width) && 1 <= r <= |g| && 1 <= c <= width - 7
    ensures var v := At(CombineStep(g), r, c);
      v == At(g, r, c) || v == At(g, r, c + 7) || v.Str?
  {
    var i := r - 1;
    var x := if 3 <= i + 1 <= LastRow(g) then Str(MergedText(g[i][7..15])) else g[i][7];
    CombineLayout(g, width, i);
    MergedRowCell(CombineStep(g)[i], g[i], x, c - 1);
  }

  /** A cell of a row made of A..G of `orig`, then `x`, then what followed O
      in `orig`: a cell of `orig` in the same place or seven places on, or
      `x`. */
  lemma MergedRowCell(row: Row, orig: Row, x: Cell, j: int)
    requires |orig| >= 15 && row == orig[..7] + [x] + orig[15..] && 0 <= j < |orig| - 7
    ensures |row| == |orig| - 7
    ensures row[j] == orig[j] || row[j] == orig[j + 7] || row[j] == x
  {
    RowPieces(row, orig[..7], x, orig[15..], j);
  }

  // ----- the stages of a run -----

  /** Two sheets of the same shape. */
  lemma SameShape(g: Grid, h: Grid, width: nat)
    requires IsRect(g, width) && |h| == |g| && forall i | 0 <= i < |g| :: |h[i]| == |g[i]|
    ensures IsRect(h, width)
  {
  }

  /** Agreeing on the key cells is transitive. */
  lemma SameKeysTrans(a: Grid, b: Grid, c: Grid)
    requires SameKeys(a, b) && SameKeys(b, c)
    ensures SameKeys(a, c)
  {
  }

  /** The first three steps keep the sheet's shape. */
  lemma NumbersShape(g: Grid, w: nat)
    requires IsRect(g, w)
    ensures IsRect(AfterBooleans(g), w) && IsRect(AfterClear(g), w) && IsRect(AfterNumbers(g), w)
    ensures |AfterNumbers(g)| == |g|
  {
    SameShape(g, AfterBooleans(g), w);
    SameShape(AfterBooleans(g), AfterClear(g), w);
    SameShape(AfterClear(g), AfterNumbers(g), w);
  }

  /** Up to `formatAndCombineText`, on a pruned sheet wide enough for the
      merge, every stage has the sheet's rows and width (seven columns fewer
      after the merge) and the sheet's key cells, and so its last valid row. */
  lemma StagesKeep(g: Grid, w: nat)
    requires IsRect(g, w) && CombineSucceeds(w)
    ensures IsRect(AfterBooleans(g), w) && IsRect(AfterClear(g), w) && IsRect(AfterNumbers(g), w)
    ensures IsRect(AfterCombine(g), w - 7)
    ensures |AfterCombine(g)| == |g|
    ensures SameKeys(g, AfterBooleans(g)) && SameKeys(g, AfterClear(g))
    ensures SameKeys(g, AfterNumbers(g)) && SameKeys(g, AfterCombine(g))
    ensures LastValidRow(AfterBooleans(g)) == LastValidRow(g)
    ensures LastValidRow(AfterClear(g)) == LastValidRow(g)
    ensures LastValidRow(AfterNumbers(g)) == LastValidRow(g)
    ensures LastValidRow(AfterCombine(g)) == LastValidRow(g)
  {
    var g2 := AfterBooleans(g);
    var g3 := AfterClear(g);
    var g4 := AfterNumbers(g);
    NumbersShape(g, w);
    CombineWidth(g4, w);
    ReplaceBooleanKeepsLastValidRow(g);
    ClearKeepsLastValidRow(g2);
    NumberKeepsLastValidRow(g3);
    CombineKeepsLastValidRow(g4, w);
    SameKeysTrans(g, g2, g3);
    SameKeysTrans(g, g3, g4);
    SameKeysTrans(g, g4, AfterCombine(g));
  }

  /** The header step keeps the sheet's shape. */
  lemma HeadersKeepShape(g: Grid, w: nat)
    requires IsRect(g, w)
    ensures IsRect(HeaderStep(g), w) && |HeaderStep(g)| == |g|
  {
    SameShape(g, HeaderStep(g), w);
  }

  /** A stage that kept the sheet's key cells still has a name in the last
      valid row, so its key column is readable. */
  lemma KeyStage(g: Grid, x: Grid, width: nat)
    requires IsKeyCell(At(g, LastValidRow(g), KeyColumn))
    requires SameKeys(g, x) && LastValidRow(x) == LastValidRow(g)
    requires |x| >= FirstDataRow && width >= KeyColumn
    ensures KeyColumnReadable(x, width)
  {
    LastValidRowIsLastKeyRow(g);
    KeyRowReadable(x, width);
  }

  /** What a successful run of the steps needs and gives, stage by stage. */
  lemma StepsOk(g: Grid, w: nat)
    ensures Steps(g, w).ok <==>
      && ReplaceBooleanSucceeds(g, w)
      && ClearSucceeds(AfterBooleans(g), w)
      && NumberSucceeds(AfterClear(g), w)
      && CombineSucceeds(w)
      && HeaderSucceeds(AfterCombine(g), w - 7)
      && ColumnWidthsFit(AfterHeaders(g), w - 7)
      && BordersFit(AfterHeaders(g), w - 7)
      && SummaryStep(AfterHeaders(g), w - 7).ok
    ensures Steps(g, w).ok ==> Steps(g, w) == Outcome(true, SummaryStep(AfterHeaders(g), w - 7).cells, w - 7)
  {
  }

  // ----- when a run succeeds -----

  /** The steps go through on a pruned sheet of at least sixteen columns
      that has a name in its last valid row and the seven summary lines'
      rows below it. This is a sufficient condition, not the converse of
      `StepsSucceedOnlyWhen`: a sheet with no name at all, whose only content
      is a title in row 1, also goes through. */
  lemma StepsSucceedWhen(g: Grid, w: nat)
    requires IsRect(g, w) && w >= 16 && LastValidRow(g) + 8 <= |g|
    requires IsKeyCell(At(g, LastValidRow(g), KeyColumn))
    ensures Steps(g, w).ok
  {
    var last := LastValidRow(g);
    StagesKeep(g, w);
    var g2, g3, g5 := AfterBooleans(g), AfterClear(g), AfterCombine(g);
    KeyStage(g, g, w);
    ReadableBounds(g, w);
    KeyStage(g, g2, w);
    KeyStage(g, g3, w);
    assert HeaderSucceeds(g5, w - 7);
    var g6 := AfterHeaders(g);
    HeaderLayout(g5, w - 7);
    HeadersKeepShape(g5, w - 7);
    SameKeysTrans(g, g5, g6);
    KeyStage(g, g6, w - 7);
    SummaryStepOutcome(g6, w - 7);
    StepsOk(g, w);
  }

  /** A successful run of the steps needs a pruned sheet of at least sixteen
      columns and the summary lines' rows below the last valid row. */
  lemma StepsSucceedOnlyWhen(g: Grid, w: nat)
    requires IsRect(g, w) && Steps(g, w).ok
    ensures w >= 16 && LastValidRow(g) + 8 <= |g|
  {
    var g5, g6 := AfterCombine(g), AfterHeaders(g);
    assert CombineSucceeds(w) && HeaderSucceeds(g5, w - 7) && SummaryStep(g6, w - 7).ok by {
      StepsOk(g, w);
    }
    StagesKeep(g, w);
    HeaderLayout(g5, w - 7);
    HeadersKeepShape(g5, w - 7);
    SummaryStepOutcome(g6, w - 7);
  }

  // ----- what a successful run leaves -----

  /** The facts about the stages of a successful run that the layout
      lemmas below share. */
  lemma StepsFacts(g: Grid, w: nat)
    requires IsRect(g, w) && Steps(g, w).ok
    ensures w >= 16 && LastValidRow(g) + 8 <= |g|
    ensures IsRect(AfterNumbers(g), w) && IsRect(AfterCombine(g), w - 7) && IsRect(AfterHeaders(g), w - 7)
    ensures |AfterHeaders(g)| == |g|
    ensures LastValidRow(AfterBooleans(g)) == LastValidRow(g)
    ensures LastValidRow(AfterClear(g)) == LastValidRow(g)
    ensures LastValidRow(AfterNumbers(g)) == LastValidRow(g)
    ensures LastValidRow(AfterHeaders(g)) == LastValidRow(g)
    ensures HeaderSucceeds(AfterCombine(g), w - 7)
    ensures Steps(g, w) == Outcome(true, SummaryStep(AfterHeaders(g), w - 7).cells, w - 7)
    ensures forall r, c :: At(Steps(g, w).cells, r, c) == match SummaryCell(LastValidRow(g), r, c)
      case Some(v) => v
      case None => At(AfterHeaders(g), r, c)
  {
    StepsSucceedOnlyWhen(g, w);
    var g5, g6 := AfterCombine(g), AfterHeaders(g);
    assert HeaderSucceeds(g5, w - 7) && SummaryStep(g6, w - 7).ok by {
      StepsOk(g, w);
    }
    assert Steps(g, w) == Outcome(true, SummaryStep(g6, w - 7).cells, w - 7) by {
      StepsOk(g, w);
    }
    StagesKeep(g, w);
    HeaderLayout(g5, w - 7);
    HeadersKeepShape(g5, w - 7);
    SummaryStepOutcome(g6, w - 7);
  }

  /** After a successful run the sheet has its rows and seven columns fewer. */
  lemma StepsShape(g: Grid, w: nat)
    requires IsRect(g, w) && Steps(g, w).ok
    ensures Steps(g, w).width == w - 7
    ensures |Steps(g, w).cells| == |g| && IsRect(Steps(g, w).cells, w - 7)
  {
    StepsFacts(g, w);
    var g6 := AfterHeaders(g);
    SameShape(g6, SummaryStep(g6, w - 7).cells, w - 7);
  }

  /** After a successful run B2..I2 hold the header labels. */
  lemma StepsHeaders(g: Grid, w: nat)
    requires IsRect(g, w) && Steps(g, w).ok
    ensures forall k | 0 <= k < |Headers| :: At(Steps(g, w).cells, 2, 2 + k) == Str(Headers[k])
  {
    StepsFacts(g, w);
    HeaderLayout(AfterCombine(g), w - 7);
  }

  /** In a data row the columns A..G of a successful run are as the
      numbering step left them: the later steps write elsewhere. */
  lemma StepsKeepFront(g: Grid, w: nat, r: int, c: int)
    requires IsRect(g, w) && Steps(g, w).ok && 3 <= r <= LastValidRow(g) && 1 <= c <= 7
    ensures At(Steps(g, w).cells, r, c) == At(AfterNumbers(g), r, c)
  {
    StepsFacts(g, w);
    assert SummaryCell(LastValidRow(g), r, c).None?;
    assert At(Steps(g, w).cells, r, c) == At(AfterHeaders(g), r, c);
    HeaderLayout(AfterCombine(g), w - 7);
    NumbersShape(g, w);
    CombineKeepsFront(AfterNumbers(g), w, r, c);
  }

  /** After a successful run column A of rows 3 to the last valid row holds
      1, 2, 3, ... */
  lemma StepsNumbers(g: Grid, w: nat)
    requires IsRect(g, w) && Steps(g, w).ok
    ensures forall r | 3 <= r <= LastValidRow(g) :: At(Steps(g, w).cells, r, 1) == Num((r - 2) as real)
  {
    StepsFacts(g, w);
    var last := LastValidRow(g);
    NumbersShape(g, w);
    forall r | 3 <= r <= last ensures At(Steps(g, w).cells, r, 1) == Num((r - 2) as real) {
      StepsKeepFront(g, w, r, 1);
      NumberedAt(AfterClear(g), last, r, 1);
    }
  }

  /** After a successful run the summary block holds the declared layout. */
  lemma StepsSummary(g: Grid, w: nat)
    requires IsRect(g, w) && Steps(g, w).ok
    ensures forall r, c | SummaryCell(LastValidRow(g), r, c).Some? ::
      At(Steps(g, w).cells, r, c) == SummaryCell(LastValidRow(g), r, c).value
  {
    StepsFacts(g, w);
  }

  /** The columns F and G of a data row after the clearing step: empty when
      the row's D or E cell was marked, else as the boolean step left them. */
  lemma ClearedTimes(g: Grid, r: int, c: int)
    requires 3 <= r <= LastValidRow(g) && (c == TimeInColumn || c == TimeInColumn + 1)
    ensures At(AfterClear(g), r, c) ==
      if Marked(At(g, r, AbsenceColumn)) || Marked(At(g, r, CancelColumn)) then Empty
      else NormalizeBoolean(At(g, r, c))
  {
    var g2 := AfterBooleans(g);
    ReplaceBooleanKeepsLastValidRow(g);
    ClearedOnConditionAt(g2, LastValidRow(g2), r, c);
    BooleansAt(g, r, c);
    BooleansAt(g, r, AbsenceColumn);
    BooleansAt(g, r, CancelColumn);
    NormalizeBooleanMarked(At(g, r, AbsenceColumn));
    NormalizeBooleanMarked(At(g, r, CancelColumn));
  }

  /** After a successful run F and G of each data row are empty when its D or
      E cell was marked (the glyph or a ticked checkbox), and otherwise hold
      what they held, with booleans rewritten. */
  lemma StepsClearTimes(g: Grid, w: nat)
    requires IsRect(g, w) && Steps(g, w).ok
    ensures forall r, c | 3 <= r <= LastValidRow(g) && (c == TimeInColumn || c == TimeInColumn + 1) ::
      At(Steps(g, w).cells, r, c) ==
        if Marked(At(g, r, AbsenceColumn)) || Marked(At(g, r, CancelColumn)) then Empty
        else NormalizeBoolean(At(g, r, c))
  {
    var last := LastValidRow(g);
    assert LastValidRow(AfterClear(g)) == last by {
      StepsFacts(g, w);
    }
    forall r, c | 3 <= r <= last && (c == TimeInColumn || c == TimeInColumn + 1)
      ensures At(Steps(g, w).cells, r, c) ==
        if Marked(At(g, r, AbsenceColumn)) || Marked(At(g, r, CancelColumn)) then Empty
        else NormalizeBoolean(At(g, r, c))
    {
      StepsKeepFront(g, w, r, c);
      NumberedAt(AfterClear(g), last, r, c);
      ClearedTimes(g, r, c);
    }
  }

  /** Up to the last valid row no checkbox survives the first three steps. */
  lemma NoBooleanBeforeCombine(g: Grid, r: int, c: int)
    requires 1 <= r <= LastValidRow(g)
    ensures !At(AfterNumbers(g), r, c).Bool?
  {
    NumberedAt(AfterClear(g), LastValidRow(AfterClear(g)), r, c);
    ClearedOnConditionAt(AfterBooleans(g), LastValidRow(AfterBooleans(g)), r, c);
    BooleansAt(g, r, c);
  }

  /** Up to the last valid row no checkbox survives the merge step. */
  lemma NoBooleanAfterCombine(g: Grid, w: nat, r: int, c: int)
    requires IsRect(g, w) && CombineSucceeds(w) && 1 <= r <= LastValidRow(g) && r <= |g|
    ensures !At(AfterCombine(g), r, c).Bool?
  {
    NumbersShape(g, w);
    forall c' ensures !At(AfterNumbers(g), r, c').Bool? {
      NoBooleanBeforeCombine(g, r, c');
    }
    CombineKeepsNoBoolean(AfterNumbers(g), w, r, c);
  }

  /** A row without booleans has none after the merge step. */
  lemma CombineKeepsNoBoolean(h: Grid, w: nat, r: int, c: int)
    requires IsRect(h, w) && CombineSucceeds(w) && 1 <= r <= |h|
    requires forall c' :: !At(h, r, c').Bool?
    ensures !At(CombineStep(h), r, c).Bool?
  {
    if 1 <= c <= w - 7 {
      CombineCell(h, w, r, c);
      assert !At(h, r, c).Bool? && !At(h, r, c + 7).Bool?;
    } else {
      CombineWidth(h, w);
      assert At(CombineStep(h), r, c) == Empty;
    }
  }

  /** After a successful run no cell of the rows up to the last valid row is
      a boolean: checkboxes were rewritten, and the later steps only write
      numbers and text. */
  lemma StepsNoBooleans(g: Grid, w: nat)
    requires IsRect(g, w) && Steps(g, w).ok
    ensures forall r, c | 1 <= r <= LastValidRow(g) :: !At(Steps(g, w).cells, r, c).Bool?
  {
    StepsFacts(g, w);
    var last := LastValidRow(g);
    forall r, c | 1 <= r <= last ensures !At(Steps(g, w).cells, r, c).Bool? {
      NoBooleanAfterCombine(g, w, r, c);
      HeaderKeepsNoBoolean(AfterCombine(g), w - 7, r, c);
      assert SummaryCell(last, r, c).None?;
    }
  }

  /** The header step writes text only. */
  lemma HeaderKeepsNoBoolean(h: Grid, w: nat, r: int, c: int)
    requires IsRect(h, w) && HeaderSucceeds(h, w) && !At(h, r, c).Bool?
    ensures !At(HeaderStep(h), r, c).Bool?
  {
    HeaderLayout(h, w);
    if r == 2 && 2 <= c <= 9 {
      assert At(HeaderStep(h), 2, 2 + (c - 2)) == Str(Headers[c - 2]);
    }
  }

  // ----- the whole report, on the sheet as the script finds it -----

  /** The steps after the deletions fail when the merge step cannot run. */
  lemma StepsNeedMergeRoom(g: Grid, w: nat)
    requires Steps(g, w).ok
    ensures CombineSucceeds(w)
  {
  }

  /** The report succeeds only on a sheet of at least 21 columns with room
      for the summary block below the last valid row. */
  lemma ReportSucceedsOnlyWhen(g: Grid, w: nat)
    requires IsRect(g, w) && Report(g, w).ok
    ensures w >= 21 && LastValidRow(g) + 8 <= |g|
  {
    if w < 12 {
      PruneNarrow(w);
      StepsNeedMergeRoom(AfterPrune(g), PrunedWidth(w));
      assert false;
    }
    PruneShape(g, w);
    StepsSucceedOnlyWhen(AfterPrune(g), w - 5);
  }

  /** A sheet of at least 21 columns whose last valid row has eight rows
      below it (the blank line and the seven summary lines) and a key cell
      in column C is processed without failure. Like `StepsSucceedWhen` this
      is sufficient but not necessary: the name in column C only keeps
      column C readable at every step, which other content can also do. */
  lemma ReportSucceedsWhen(g: Grid, w: nat)
    requires IsRect(g, w) && w >= 21 && LastValidRow(g) + 8 <= |g|
    requires IsKeyCell(At(g, LastValidRow(g), KeyColumn))
    ensures Report(g, w).ok
  {
    PruneShape(g, w);
    StepsSucceedWhen(AfterPrune(g), w - 5);
  }

  /** A successful report runs the steps on the pruned sheet, which has the
      same rows, five columns fewer, and the same last valid row. */
  lemma ReportPruned(g: Grid, w: nat)
    requires IsRect(g, w) && Report(g, w).ok
    ensures w >= 21 && LastValidRow(g) + 8 <= |g|
    ensures IsRect(AfterPrune(g), w - 5) && |AfterPrune(g)| == |g|
    ensures LastValidRow(AfterPrune(g)) == LastValidRow(g)
    ensures forall r, c | 1 <= c <= 6 :: At(AfterPrune(g), r, c) == At(g, r, c)
    ensures Report(g, w) == Steps(AfterPrune(g), w - 5)
  {
    ReportSucceedsOnlyWhen(g, w);
    PruneShape(g, w);
  }

  /** A successful report leaves a rectangular sheet with the same rows and
      twelve columns fewer: five deleted first, seven by the merge step. */
  lemma ReportShape(g: Grid, w: nat)
    requires IsRect(g, w) && Report(g, w).ok
    ensures Report(g, w).width == w - 12
    ensures IsRect(Report(g, w).cells, w - 12) && |Report(g, w).cells| == |g|
  {
    ReportPruned(g, w);
    StepsShape(AfterPrune(g), w - 5);
  }

  /** A successful report puts the eight headers in B2:I2, numbers the data
      rows 1, 2, 3, ... in column A, and writes the summary block. */
  lemma ReportLayout(g: Grid, w: nat)
    requires IsRect(g, w) && Report(g, w).ok
    ensures forall k | 0 <= k < |Headers| :: At(Report(g, w).cells, 2, 2 + k) == Str(Headers[k])
    ensures forall r | 3 <= r <= LastValidRow(g) :: At(Report(g, w).cells, r, 1) == Num((r - 2) as real)
    ensures forall r, c | SummaryCell(LastValidRow(g), r, c).Some? ::
      At(Report(g, w).cells, r, c) == SummaryCell(LastValidRow(g), r, c).value
  {
    ReportPruned(g, w);
    StepsHeaders(AfterPrune(g), w - 5);
    StepsNumbers(AfterPrune(g), w - 5);
    StepsSummary(AfterPrune(g), w - 5);
  }

  /** In terms of the sheet as found: the two cleared columns are F and the
      original H (G was deleted before); in data row `r` they end empty when
      D or E was marked, else they keep their value with booleans rewritten. */
  lemma ReportClearTimes(g: Grid, w: nat, r: int)
    requires IsRect(g, w) && Report(g, w).ok && 3 <= r <= LastValidRow(g)
    ensures var marked := Marked(At(g, r, AbsenceColumn)) || Marked(At(g, r, CancelColumn));
      At(Report(g, w).cells, r, 6) == (if marked then Empty else NormalizeBoolean(At(g, r, 6))) &&
      At(Report(g, w).cells, r, 7) == (if marked then Empty else NormalizeBoolean(At(g, r, 8)))
  {
    ReportPruned(g, w);
    var h := AfterPrune(g);
    StepsClearTimes(h, w - 5);
    PruneCellH(g, r);
    assert At(Report(g, w).cells, r, 6) == At(Steps(h, w - 5).cells, r, 6);
    assert At(Report(g, w).cells, r, 7) == At(Steps(h, w - 5).cells, r, 7);
  }

  /** A successful report leaves no boolean in the rows up to the last valid row. */
  lemma ReportNoBooleans(g: Grid, w: nat)
    requires IsRect(g, w) && Report(g, w).ok
    ensures forall r, c | 1 <= r <= LastValidRow(g) :: !At(Report(g, w).cells, r, c).Bool?
  {
    ReportPruned(g, w);
    StepsNoBooleans(AfterPrune(g), w - 5);
  }
}

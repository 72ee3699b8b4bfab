/** The whole report as `processDailyReport` runs it: the column deletions,
    then the steps one after another; the first step that throws ends the
    run, and the sheet keeps whatever the steps before it (and the failing
    step itself, for the summary) have written. */
module Pipeline {
  import opened Cells
  import opened Grids
  import opened Columns
  import opened ReportSpec
  import opened Summary

  /** The end of a run: whether every step went through, and the sheet and
      its width as the run left them. */
  datatype Outcome = Outcome(ok: bool, cells: Grid, width: nat)

  // ----- the stages of a run -----

  /** The sheet after the deletions of L, K, J, I and G. */
  function AfterPrune(g: Grid): Grid
  {
    DeleteColumns(g, PruneOrder(ColumnLetters))
  }

  /** The width after the deletions of L, K, J, I and G. */
  function PrunedWidth(w: nat): nat
  {
    WidthAfter(w, PruneOrder(ColumnLetters))
  }

  /** The pruned sheet `g` after `replaceBoolean`. */
  function AfterBooleans(g: Grid): Grid
  {
    ReplaceBooleanStep(g)
  }

  /** The pruned sheet `g` after `clearBasedOnCondition`. */
  function AfterClear(g: Grid): Grid
  {
    ClearStep(AfterBooleans(g))
  }

  /** The pruned sheet `g` after `addSequenceNumbers`. */
  function AfterNumbers(g: Grid): Grid
  {
    NumberStep(AfterClear(g))
  }

  /** The pruned sheet `g` after `formatAndCombineText`. */
  function AfterCombine(g: Grid): Grid
  {
    CombineStep(AfterNumbers(g))
  }

  /** The pruned sheet `g` after `insertHeaders`. */
  function AfterHeaders(g: Grid): Grid
  {
    HeaderStep(AfterCombine(g))
  }

  /** `setColumnWidthsAndMerge` finds the last valid row and then names the
      columns G..I and the range H2:I<lastValidRow>; it changes no value. */
  predicate ColumnWidthsFit(g: Grid, width: nat)
  {
    KeyColumnReadable(g, width) && RangeFits(g, width, 2, SpanFirst, LastValidRow(g) - 1, 2)
  }

  /** `setBorders` finds the last valid row and then names the range
      A2:I<lastValidRow>; it changes no value. */
  predicate BordersFit(g: Grid, width: nat)
  {
    KeyColumnReadable(g, width) && RangeFits(g, width, 2, 1, LastValidRow(g) - 1, 9)
  }

  /** `processDailyReport` on a sheet `g` of width `w`: the deletions,
      then the steps. */
  function Report(g: Grid, w: nat): (out: Outcome)
  {
    Steps(AfterPrune(g), PrunedWidth(w))
  }

  /** The steps after the deletions, on the pruned sheet `g` of width `w`. */
  function Steps(g: Grid, w: nat): (out: Outcome)
  {
    if !ReplaceBooleanSucceeds(g, w) then Outcome(false, g, w)
    else if !ClearSucceeds(AfterBooleans(g), w) then Outcome(false, AfterBooleans(g), w)
    else if !NumberSucceeds(AfterClear(g), w) then Outcome(false, AfterClear(g), w)
    else LayoutSteps(AfterNumbers(g), w)
  }

  /** The steps from `formatAndCombineText` on, on the sheet `g` of width
      `w` that `addSequenceNumbers` left. */
  function LayoutSteps(g: Grid, w: nat): (out: Outcome)
  {
    if !CombineSucceeds(w) then Outcome(false, g, w)
    else
      var combined := CombineStep(g);
      if !HeaderSucceeds(combined, w - 7) then Outcome(false, combined, w - 7)
      else
        var headed := HeaderStep(combined);
        if !ColumnWidthsFit(headed, w - 7) || !BordersFit(headed, w - 7) then Outcome(false, headed, w - 7)
        else
          var s := SummaryStep(headed, w - 7);
          Outcome(s.ok, s.cells, w - 7)
  }

  // ----- what the deletions keep -----

  /** A row of at least twelve cells after the deletions: A..F, H, and
      everything from M on. */
  lemma PruneRow(g: Grid, i: int)
    requires 0 <= i < |g| && |g[i]| >= 12
    ensures AfterPrune(g)[i] == g[i][..6] + g[i][7..8] + g[i][12..]
  {
    DeleteColumnsRows(g, PruneOrder(ColumnLetters), i);
    ReportPruneLayout(g[i]);
  }

  /** A row of at least twelve cells after the deletions is five cells
      shorter and starts with the same six cells. */
  lemma PruneRowFront(g: Grid, i: int)
    requires 0 <= i < |g| && |g[i]| >= 12
    ensures |AfterPrune(g)[i]| == |g[i]| - 5
    ensures forall j | 0 <= j < 6 :: AfterPrune(g)[i][j] == g[i][j]
    ensures AfterPrune(g)[i][6] == g[i][7]
  {
    PruneRow(g, i);
    KeptFront(AfterPrune(g)[i], g[i]);
  }

  /** A..F, H and everything from M on: five cells fewer, the first six
      kept, and H moved to the seventh place. */
  lemma KeptFront(row: Row, orig: Row)
    requires |orig| >= 12 && row == orig[..6] + orig[7..8] + orig[12..]
    ensures |row| == |orig| - 5
    ensures forall j | 0 <= j < 6 :: row[j] == orig[j]
    ensures row[6] == orig[7]
  {
    assert forall j | 0 <= j < 6 :: row[j] == orig[..6][j];
  }

  /** Columns A..F of a row of at least twelve cells are kept in place. */
  lemma PruneCell(g: Grid, r: int, c: int)
    requires 1 <= r <= |g| && |g[r - 1]| >= 12 && 1 <= c <= 6
    ensures At(AfterPrune(g), r, c) == At(g, r, c)
  {
    PruneRowFront(g, r - 1);
  }

  /** Column G after the deletions is the original column H. */
  lemma PruneCellH(g: Grid, r: int)
    requires 1 <= r <= |g| && |g[r - 1]| >= 12
    ensures At(AfterPrune(g), r, 7) == At(g, r, 8)
  {
    PruneRowFront(g, r - 1);
  }

  /** Twelve or more columns lose five to the deletions. */
  lemma PrunedWidthOf(w: nat)
    requires w >= 12
    ensures PrunedWidth(w) == w - 5
  {
    ReportPruneOrder();
    ReportOrderWidth(w);
  }

  /** Deleting 12, 11, 10, 9 and 7 from twelve or more columns. */
  lemma ReportOrderWidth(w: nat)
    requires w >= 12
    ensures WidthAfter(w, [12, 11, 10, 9, 7]) == w - 5
  {
    var cs: seq<int> := [12, 11, 10, 9, 7];
    assert WidthAfter(w, cs) == WidthAfter(w - 1, cs[1..]);
    assert WidthAfter(w - 1, cs[1..]) == WidthAfter(w - 2, cs[2..]);
    assert WidthAfter(w - 2, cs[2..]) == WidthAfter(w - 3, cs[3..]);
    assert WidthAfter(w - 3, cs[3..]) == WidthAfter(w - 4, cs[4..]);
    assert WidthAfter(w - 4, cs[4..]) == WidthAfter(w - 5, cs[5..]);
  }

  /** On a sheet with at least twelve columns the deletions leave a sheet
      five columns narrower whose columns A..F are the original A..F; so
      the key column, and with it the last valid row, are kept. */
  lemma PruneShape(g: Grid, w: nat)
    requires IsRect(g, w) && w >= 12
    ensures PrunedWidth(w) == w - 5
    ensures |AfterPrune(g)| == |g| && IsRect(AfterPrune(g), w - 5)
    ensures forall r, c | 1 <= c <= 6 :: At(AfterPrune(g), r, c) == At(g, r, c)
    ensures SameKeys(g, AfterPrune(g)) && LastValidRow(AfterPrune(g)) == LastValidRow(g)
  {
    var h := AfterPrune(g);
    PrunedWidthOf(w);
    assert IsRect(h, w - 5) by {
      forall i | 0 <= i < |g| ensures |h[i]| == w - 5 {
        PruneRowFront(g, i);
      }
    }
    assert forall r, c | 1 <= c <= 6 :: At(h, r, c) == At(g, r, c) by {
      forall r, c | 1 <= c <= 6 ensures At(h, r, c) == At(g, r, c) {
        if 1 <= r <= |g| {
          PruneCell(g, r, c);
        }
      }
    }
    LastValidRowFromKeys(g, h);
  }

  /** On a sheet with fewer than twelve columns the deletions leave fewer
      than fifteen, too few for the merge step. */
  lemma PruneNarrow(w: nat)
    requires w < 12
    ensures PrunedWidth(w) < 15
  {
    WidthAfterAtMost(w, PruneOrder(ColumnLetters));
  }
}

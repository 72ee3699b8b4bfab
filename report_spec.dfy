/** What each step of the daily attendance report does to the sheet, stated
    as functions on grids, with the properties the steps promise. The steps
    themselves, written against the sheet as the script writes them, are in
    module DailyReport and are proved to compute these functions. */
module ReportSpec {
  import opened Cells
  import opened Grids
  import opened Text
  import opened Columns

  /** The columns the report drops first. */
  const ColumnLetters: seq<char> := ['L', 'K', 'J', 'I', 'G']
  /** Rows 1 and 2 are the title and the header; data starts at row 3. */
  const FirstDataRow: int := 3
  /** Column C, the name: a row holds data when its C cell does. */
  const KeyColumn: int := 3
  /** Column D, absence. */
  const AbsenceColumn: int := 4
  /** Column E, same-day cancellation. */
  const CancelColumn: int := 5
  /** Column F, time in; column G, time out, follows it. */
  const TimeInColumn: int := 6
  /** Column H, the first column of the merged span H..O. */
  const SpanFirst: int := 8
  /** The merged span H..O is eight columns wide. */
  const SpanWidth: int := 8
  /** The separator of the merged text. */
  const MergeSeparator: char := '、'
  /** The header labels written to B2:I2. */
  const Headers: seq<string> := ["弁当", "氏名", "欠席", "当キャ", "出勤", "退勤", "作業内容", "日報"]

  // ----- dropping the columns L, K, J, I, G -----

  /** The order in which the columns named by `letters` are deleted: their
      numbers, highest first. */
  function PruneOrder(letters: seq<char>): seq<int>
  {
    SortDescending(ColumnIndices(letters))
  }

  /** The report's letters are the columns 12, 11, 10, 9 and 7, already
      in descending order, so they are deleted in that order. */
  lemma ReportPruneOrder()
    ensures ColumnIndices(ColumnLetters) == [12, 11, 10, 9, 7]
    ensures PruneOrder(ColumnLetters) == [12, 11, 10, 9, 7]
  {
    assert ColumnIndices(ColumnLetters) == [12, 11, 10, 9, 7];
    SortDescendingSorted([12, 11, 10, 9, 7]);
  }

  /** For distinct letters, deleting in the prune order removes from each
      row exactly the columns the letters name in the ORIGINAL sheet, and
      keeps all others in their original order. */
  lemma PruneRemovesNamedColumns(row: Row, letters: seq<char>)
    requires NoDuplicates(letters)
    ensures DeleteEach(row, PruneOrder(letters)) == Keep(row, Elems(ColumnIndices(letters)), 1)
  {
    var indices := ColumnIndices(letters);
    ColumnIndicesDistinct(letters);
    SortDistinctStrict(indices);
    assert Elems(PruneOrder(letters)) == Elems(indices);
    DeleteDescendingKeepsOthers(row, PruneOrder(letters));
  }

  /** On a row that has all of them, dropping L, K, J, I, G leaves A..F, H
      and everything from M on. */
  lemma ReportPruneLayout(row: Row)
    requires |row| >= 12
    ensures DeleteEach(row, PruneOrder(ColumnLetters)) == row[..6] + row[7..8] + row[12..]
  {
    PrunedColumnsNamed();
    PruneRemovesNamedColumns(row, ColumnLetters);
    PruneKeepRow(row, Elems(ColumnIndices(ColumnLetters)));
  }

  /** `gone` holds the original numbers of the columns the report drops:
      G and I..L. */
  ghost predicate IsPrunedSet(gone: set<int>)
  {
    forall q :: q in gone <==> q == 7 || 9 <= q <= 12
  }

  /** Keeping all but the dropped columns of a row that has them leaves
      A..F, H and everything from M on. */
  lemma PruneKeepRow(row: Row, gone: set<int>)
    requires |row| >= 12 && IsPrunedSet(gone)
    ensures Keep(row, gone, 1) == row[..6] + row[7..8] + row[12..]
  {
    var front, tail := row[..8], row[8..];
    assert Keep(row, gone, 1) == Keep(front, gone, 1) + Keep(tail, gone, 9) by {
      assert row == front + tail;
      KeepSplit(front, tail, gone, 1);
    }
    assert Keep(tail, gone, 9) == row[12..] by {
      assert tail == row[8..12] + row[12..];
      PruneDropsIToL(row[8..12], row[12..], gone);
    }
    assert Keep(front, gone, 1) == row[..6] + row[7..8] by {
      PruneKeepsFront(front, gone);
      assert front[..6] == row[..6];
      assert front[7..8] == row[7..8];
    }
  }

  /** The dropped columns are the ones the letters name. */
  lemma PrunedColumnsNamed()
    ensures NoDuplicates(ColumnLetters)
    ensures IsPrunedSet(Elems(ColumnIndices(ColumnLetters)))
  {
    var cs: seq<int> := [12, 11, 10, 9, 7];
    assert ColumnIndices(ColumnLetters) == cs;
    forall q ensures q in Elems(cs) <==> q == 7 || 9 <= q <= 12 {
      assert q in cs <==> q == cs[0] || q == cs[1] || q == cs[2] || q == cs[3] || q == cs[4];
    }
    assert NoDuplicates(ColumnLetters) by {
      var ls := ColumnLetters;
      assert ls[0] == 'L' && ls[1] == 'K' && ls[2] == 'J' && ls[3] == 'I' && ls[4] == 'G';
    }
  }

  /** Columns I..L are all dropped and every column after them is kept. */
  lemma PruneDropsIToL(m: Row, rest: Row, gone: set<int>)
    requires |m| == 4 && IsPrunedSet(gone)
    ensures Keep(m + rest, gone, 9) == rest
  {
    assert Keep(m, gone, 9) == [] by {
      KeepAllGone(m, gone, 9);
    }
    assert Keep(rest, gone, 13) == rest by {
      KeepNoneGone(rest, gone, 13);
    }
    KeepSplit(m, rest, gone, 9);
  }

  /** Of columns A..H, only G is dropped. */
  lemma PruneKeepsFront(front: Row, gone: set<int>)
    requires |front| == 8 && IsPrunedSet(gone)
    ensures Keep(front, gone, 1) == front[..6] + front[7..8]
  {
    var a, g1, h := front[..6], front[6..7], front[7..8];
    assert Keep(a + g1, gone, 1) == a by {
      KeepSplit(a, g1, gone, 1);
      KeepNoneGone(a, gone, 1);
      KeepAllGone(g1, gone, 7);
    }
    assert Keep((a + g1) + h, gone, 1) == a + h by {
      KeepSplit(a + g1, h, gone, 1);
      KeepNoneGone(h, gone, 8);
    }
    assert front == (a + g1) + h;
  }

  // ----- the last valid row (`getValidDataRange`) -----

  /** The last row from 3 to `r` whose key cell holds data, or 3 when none does. */
  function KeyRowUpTo(g: Grid, r: int): (v: nat)
    ensures 3 <= v && (v <= r || v == 3)
    ensures v == 3 || IsKeyCell(At(g, v, KeyColumn))
    ensures forall q {:trigger IsKeyCell(At(g, q, KeyColumn))} | v < q <= r :: !IsKeyCell(At(g, q, KeyColumn))
    decreases r
  {
    if r <= FirstDataRow then FirstDataRow
    else if IsKeyCell(At(g, r, KeyColumn)) then r
    else KeyRowUpTo(g, r - 1)
  }

  /** `lastValidRow`: the scan of C3 down to the sheet's last row. */
  function LastValidRow(g: Grid): nat
  {
    KeyRowUpTo(g, LastRow(g))
  }

  /** The last valid row is at least 3; it is the last row of the whole sheet
      whose key cell holds data, or 3 when no row from 3 on does. Empty
      strings, `false` and `0` never count. */
  lemma LastValidRowIsLastKeyRow(g: Grid)
    ensures LastValidRow(g) >= 3
    ensures LastValidRow(g) == 3 || IsKeyCell(At(g, LastValidRow(g), KeyColumn))
    ensures forall q | q > LastValidRow(g) :: !IsKeyCell(At(g, q, KeyColumn))
    ensures LastValidRow(g) <= |g| || LastValidRow(g) == 3
  {
    forall q | q > LastValidRow(g) ensures !IsKeyCell(At(g, q, KeyColumn)) {
      if q > LastRow(g) {
        NoContentBelowLastRow(g, q, KeyColumn);
        KeyCellHasContent(At(g, q, KeyColumn));
      }
    }
  }

  /** The two sheets agree on which key cells from row 3 on hold data. */
  ghost predicate SameKeys(g: Grid, h: Grid)
  {
    forall q | q >= FirstDataRow :: IsKeyCell(At(g, q, KeyColumn)) == IsKeyCell(At(h, q, KeyColumn))
  }

  /** The last valid row depends only on which key cells from row 3 on hold
      data: two sheets that agree on that have the same last valid row. */
  lemma LastValidRowFromKeys(g: Grid, h: Grid)
    requires SameKeys(g, h)
    ensures LastValidRow(g) == LastValidRow(h)
  {
    LastValidRowIsLastKeyRow(g);
    LastValidRowIsLastKeyRow(h);
  }

  /** The read of `C3:C<lastRow>` succeeds. The range runs from row 3 to the
      last row; when the last row is 1 or 2 the host reads the rows between it
      and row 3, which must exist; an empty sheet gives `C3:C0`, which is not a
      range at all. */
  predicate KeyColumnReadable(g: Grid, width: nat)
  {
    width >= KeyColumn && LastRow(g) >= 1 && |g| >= FirstDataRow
  }

  /** Once the key column is readable the last valid row is a row of the
      sheet, and some column is used. */
  lemma ReadableBounds(g: Grid, width: nat)
    requires IsRect(g, width) && KeyColumnReadable(g, width)
    ensures 3 <= LastValidRow(g) <= |g|
    ensures 1 <= LastColumn(g) <= width
  {
    LastValidRowIsLastKeyRow(g);
    LastColumnBounds(g, width);
  }

  /** A sheet whose last valid row holds a name has that row as a used
      row, so with three columns its key column is readable. */
  lemma KeyRowReadable(g: Grid, width: nat)
    requires IsKeyCell(At(g, LastValidRow(g), KeyColumn)) && width >= KeyColumn && |g| >= FirstDataRow
    ensures KeyColumnReadable(g, width)
  {
    var v := LastValidRow(g);
    KeyCellHasContent(At(g, v, KeyColumn));
    if LastRow(g) < v {
      NoContentBelowLastRow(g, v, KeyColumn);
    }
  }

  // ----- `replaceBoolean` -----

  /** The block of rows 1..`rows` and columns 1..`cols` with every boolean
      rewritten by `NormalizeBoolean`. */
  function ReplacedBooleans(g: Grid, rows: int, cols: int): (h: Grid)
    ensures |h| == |g| && forall i | 0 <= i < |g| :: |h[i]| == |g[i]|
  {
    seq(|g|, i requires 0 <= i < |g| =>
      if i < rows then
        seq(|g[i]|, j requires 0 <= j < |g[i]| => if j < cols then NormalizeBoolean(g[i][j]) else g[i][j])
      else g[i])
  }

  /** The boolean step succeeds when its block fits the sheet. */
  predicate ReplaceBooleanSucceeds(g: Grid, width: nat)
  {
    KeyColumnReadable(g, width) && RangeFits(g, width, 1, 1, LastValidRow(g), LastColumn(g))
  }

  /** The boolean step on rows 1..lastValidRow and every used column. */
  function ReplaceBooleanStep(g: Grid): Grid
  {
    ReplacedBooleans(g, LastValidRow(g), LastColumn(g))
  }

  /** Inside the block `true` becomes the glyph and `false` the empty string;
      every other cell, inside or outside the block, is unchanged; the sheet
      keeps its shape. */
  lemma ReplacedBooleansAt(g: Grid, rows: int, cols: int, r: int, c: int)
    ensures At(ReplacedBooleans(g, rows, cols), r, c) ==
      if 1 <= r <= rows && 1 <= c <= cols then NormalizeBoolean(At(g, r, c)) else At(g, r, c)
  {
  }

  /** Writing back, at A1, the block read from A1 with each cell passed
      through `NormalizeBoolean` is the boolean step on that block. */
  lemma PasteNormalizedBlock(g: Grid, width: nat, read: Grid, block: Grid, rows: nat, cols: nat)
    requires IsRect(g, width) && rows <= |g| && cols <= width
    requires |read| == rows && IsRect(read, cols)
    requires forall i, j | 0 <= i < rows && 0 <= j < cols :: read[i][j] == At(g, 1 + i, 1 + j)
    requires |block| == |read| && forall i | 0 <= i < |read| :: |block[i]| == |read[i]|
    requires forall i, j | 0 <= i < |read| && 0 <= j < |read[i]| :: block[i][j] == NormalizeBoolean(read[i][j])
    ensures Paste(g, 1, 1, block) == ReplacedBooleans(g, rows, cols)
  {
    var p, h := Paste(g, 1, 1, block), ReplacedBooleans(g, rows, cols);
    forall r, c ensures At(p, r, c) == At(h, r, c) {
      PasteAt(g, 1, 1, block, r, c);
      ReplacedBooleansAt(g, rows, cols, r, c);
    }
    GridExt(p, h);
  }

  /** After the step no boolean is left inside the block. */
  lemma ReplaceBooleanLeavesNoBoolean(g: Grid, r: int, c: int)
    requires 1 <= r <= LastValidRow(g) && 1 <= c <= LastColumn(g)
    ensures !At(ReplaceBooleanStep(g), r, c).Bool?
  {
    ReplacedBooleansAt(g, LastValidRow(g), LastColumn(g), r, c);
  }

  /** The boolean step keeps the last valid row. */
  lemma ReplaceBooleanKeepsLastValidRow(g: Grid)
    ensures LastValidRow(ReplaceBooleanStep(g)) == LastValidRow(g)
    ensures SameKeys(g, ReplaceBooleanStep(g))
  {
    var h := ReplaceBooleanStep(g);
    forall q | q >= 3 ensures IsKeyCell(At(g, q, KeyColumn)) == IsKeyCell(At(h, q, KeyColumn)) {
      ReplacedBooleansAt(g, LastValidRow(g), LastColumn(g), q, KeyColumn);
      NormalizeBooleanKeepsKey(At(g, q, KeyColumn));
    }
    LastValidRowFromKeys(g, h);
  }

  // ----- `clearBasedOnCondition` -----

  /** The row's absence or cancellation cell holds the presence glyph. */
  predicate Qualifies(g: Grid, r: int)
  {
    At(g, r, AbsenceColumn) == Str(Presence) || At(g, r, CancelColumn) == Str(Presence)
  }

  /** No row from 3 to `last` qualifies. */
  predicate NoneQualify(g: Grid, last: int)
  {
    forall r | 3 <= r <= last :: !Qualifies(g, r)
  }

  /** A row that does not qualify extends a run of rows that do not. */
  lemma NoneQualifyNext(g: Grid, last: int)
    requires NoneQualify(g, last) && !Qualifies(g, last + 1)
    ensures NoneQualify(g, last + 1)
  {
  }

  /** The row with its F and G cells emptied. */
  function ClearTimes(row: Row): (r: Row)
    ensures |r| == |row|
  {
    seq(|row|, j requires 0 <= j < |row| => if j == TimeInColumn - 1 || j == TimeInColumn then Empty else row[j])
  }

  /** Rows 3..`last` that qualify, with their F and G cells emptied. */
  function ClearedOnCondition(g: Grid, last: int): (h: Grid)
    ensures |h| == |g| && forall i | 0 <= i < |g| :: |h[i]| == |g[i]|
  {
    seq(|g|, i requires 0 <= i < |g| =>
      if 3 <= i + 1 <= last && Qualifies(g, i + 1) then ClearTimes(g[i]) else g[i])
  }

  /** F and G of a row from 3 to `last` become empty when its D or E cell
      holds the glyph; no other cell changes. */
  lemma ClearedOnConditionAt(g: Grid, last: int, r: int, c: int)
    ensures At(ClearedOnCondition(g, last), r, c) ==
      if 3 <= r <= last && Qualifies(g, r) && (c == TimeInColumn || c == TimeInColumn + 1) then Empty
      else At(g, r, c)
  {
  }

  /** With no qualifying row nothing is cleared. */
  lemma ClearedNothing(g: Grid, last: int)
    requires NoneQualify(g, last)
    ensures ClearedOnCondition(g, last) == g
  {
    forall r, c ensures At(ClearedOnCondition(g, last), r, c) == At(g, r, c) {
      ClearedOnConditionAt(g, last, r, c);
    }
    GridExt(ClearedOnCondition(g, last), g);
  }

  /** The clearing step succeeds when columns D and E exist down to the last
      valid row and, if any row qualifies, columns F and G exist too. */
  predicate ClearSucceeds(g: Grid, width: nat)
  {
    && KeyColumnReadable(g, width)
    && RangeFits(g, width, 3, CancelColumn, LastValidRow(g) - 2, 1)
    && (width >= TimeInColumn + 1 || NoneQualify(g, LastValidRow(g)))
  }

  /** The clearing step over rows 3..lastValidRow. */
  function ClearStep(g: Grid): Grid
  {
    ClearedOnCondition(g, LastValidRow(g))
  }

  /** The clearing step keeps the last valid row. */
  lemma ClearKeepsLastValidRow(g: Grid)
    ensures LastValidRow(ClearStep(g)) == LastValidRow(g)
    ensures SameKeys(g, ClearStep(g))
  {
    forall q | q >= 3 ensures IsKeyCell(At(g, q, KeyColumn)) == IsKeyCell(At(ClearStep(g), q, KeyColumn)) {
      ClearedOnConditionAt(g, LastValidRow(g), q, KeyColumn);
    }
    LastValidRowFromKeys(g, ClearStep(g));
  }

  /** Clearing twice clears nothing more than clearing once. */
  lemma ClearIdempotent(g: Grid)
    ensures ClearStep(ClearStep(g)) == ClearStep(g)
  {
    var h := ClearStep(g);
    ClearKeepsLastValidRow(g);
    var last := LastValidRow(g);
    forall r, c ensures At(ClearStep(h), r, c) == At(h, r, c) {
      ClearedOnConditionAt(h, last, r, c);
      ClearedOnConditionAt(g, last, r, c);
      ClearedOnConditionAt(g, last, r, AbsenceColumn);
      ClearedOnConditionAt(g, last, r, CancelColumn);
    }
    GridExt(ClearStep(h), h);
  }

  /** Extending the cleared rows by one row clears that row's F and G
      exactly when it qualifies. */
  lemma ClearedOnConditionNext(g: Grid, width: nat, last: int)
    requires IsRect(g, width) && width >= TimeInColumn + 1 && 2 <= last < |g|
    ensures ClearedOnCondition(g, last + 1) ==
      if Qualifies(g, last + 1) then Paste(ClearedOnCondition(g, last), last + 1, TimeInColumn, Filled(1, 2, Empty))
      else ClearedOnCondition(g, last)
  {
    if Qualifies(g, last + 1) {
      var h := ClearedOnCondition(g, last);
      var p := Paste(h, last + 1, TimeInColumn, Filled(1, 2, Empty));
      forall r, c ensures At(ClearedOnCondition(g, last + 1), r, c) == At(p, r, c) {
        ClearedNextAt(g, width, last, r, c);
      }
      GridExt(ClearedOnCondition(g, last + 1), p);
    } else {
      ClearedOnConditionSkip(g, last);
    }
  }

  /** One cell of `ClearedOnConditionNext` for a qualifying row. */
  lemma ClearedNextAt(g: Grid, width: nat, last: int, r: int, c: int)
    requires IsRect(g, width) && width >= TimeInColumn + 1 && 2 <= last < |g| && Qualifies(g, last + 1)
    ensures At(ClearedOnCondition(g, last + 1), r, c) ==
      At(Paste(ClearedOnCondition(g, last), last + 1, TimeInColumn, Filled(1, 2, Empty)), r, c)
  {
    var h := ClearedOnCondition(g, last);
    ClearedOnConditionAt(g, last + 1, r, c);
    ClearedOnConditionAt(g, last, r, c);
    PasteAt(h, last + 1, TimeInColumn, Filled(1, 2, Empty), r, c);
  }

  /** Extending the cleared rows by a row that does not qualify changes nothing. */
  lemma ClearedOnConditionSkip(g: Grid, last: int)
    requires !Qualifies(g, last + 1)
    ensures ClearedOnCondition(g, last + 1) == ClearedOnCondition(g, last)
  {
    forall r, c ensures At(ClearedOnCondition(g, last + 1), r, c) == At(ClearedOnCondition(g, last), r, c) {
      ClearedOnConditionAt(g, last + 1, r, c);
      ClearedOnConditionAt(g, last, r, c);
    }
    GridExt(ClearedOnCondition(g, last + 1), ClearedOnCondition(g, last));
  }

  // ----- `addSequenceNumbers` -----

  /** Column A of rows 3..`last` set to 1, 2, 3, ... */
  function Numbered(g: Grid, last: int): (h: Grid)
    ensures |h| == |g| && forall i | 0 <= i < |g| :: |h[i]| == |g[i]|
  {
    seq(|g|, i requires 0 <= i < |g| =>
      if 3 <= i + 1 <= last && |g[i]| >= 1 then g[i][0 := Num((i - 1) as real)] else g[i])
  }

  /** Row `r` from 3 to `last` gets the number `r - 2` in column A: the rows
      are numbered 1, 2, 3, ... without gaps; no other cell changes. */
  lemma NumberedAt(g: Grid, last: int, r: int, c: int)
    ensures At(Numbered(g, last), r, c) ==
      if 3 <= r <= last && r <= |g| && c == 1 && |g[r - 1]| >= 1 then Num((r - 2) as real) else At(g, r, c)
  {
  }

  /** Numbering no rows changes nothing. */
  lemma NumberedNone(g: Grid, last: int)
    requires last < 3
    ensures Numbered(g, last) == g
  {
  }

  /** Extending the numbered rows by one row numbers that row. */
  lemma NumberedNext(g: Grid, width: nat, last: int)
    requires IsRect(g, width) && width >= 1 && 2 <= last < |g|
    ensures Numbered(g, last + 1) == SetCell(Numbered(g, last), last + 1, 1, Num((last - 1) as real))
  {
    var h := SetCell(Numbered(g, last), last + 1, 1, Num((last - 1) as real));
    forall r, c ensures At(Numbered(g, last + 1), r, c) == At(h, r, c) {
      NumberedAt(g, last + 1, r, c);
      NumberedAt(g, last, r, c);
    }
    GridExt(Numbered(g, last + 1), h);
  }

  /** The numbering step succeeds when rows 3..lastValidRow exist. */
  predicate NumberSucceeds(g: Grid, width: nat)
  {
    KeyColumnReadable(g, width) && RangeFits(g, width, 3, 1, LastValidRow(g) - 2, 1)
  }

  /** The numbering step over rows 3..lastValidRow. */
  function NumberStep(g: Grid): Grid
  {
    Numbered(g, LastValidRow(g))
  }

  /** The numbering step keeps the last valid row. */
  lemma NumberKeepsLastValidRow(g: Grid)
    ensures LastValidRow(NumberStep(g)) == LastValidRow(g)
    ensures SameKeys(g, NumberStep(g))
  {
    forall q | q >= 3 ensures IsKeyCell(At(g, q, KeyColumn)) == IsKeyCell(At(NumberStep(g), q, KeyColumn)) {
    }
    LastValidRowFromKeys(g, NumberStep(g));
  }

  // ----- `formatAndCombineText` -----

  /** The strings of the span that are not blank after `trim`, in order;
      numbers, booleans and blanks are left out. */
  function MergeTexts(span: seq<Cell>): (texts: seq<string>)
    ensures forall t :: t in texts <==> Str(t) in span && Trim(t) != ""
  {
    if span == [] then []
    else (if IsMergeText(span[0]) then [span[0].s] else []) + MergeTexts(span[1..])
  }

  /** The filter keeps the span's order: of two kept texts, the one whose
      first occurrence among the texts comes earlier is the one whose first
      cell in the span comes earlier. */
  lemma {:induction false} MergeTextsOrder(span: seq<Cell>, t: string, u: string)
    requires t in MergeTexts(span) && u in MergeTexts(span)
    ensures Str(t) in span && Str(u) in span
    ensures FirstIndex(MergeTexts(span), t) < FirstIndex(MergeTexts(span), u) <==>
      FirstIndex(span, Str(t)) < FirstIndex(span, Str(u))
  {
    var c, rest := span[0], span[1..];
    var later := MergeTexts(rest);
    assert span == [c] + rest;
    FirstIndexCons(c, rest, Str(t));
    FirstIndexCons(c, rest, Str(u));
    if IsMergeText(c) {
      assert MergeTexts(span) == [c.s] + later;
      FirstIndexCons(c.s, later, t);
      FirstIndexCons(c.s, later, u);
      if c.s != t && c.s != u {
        MergeTextsOrder(rest, t, u);
      }
    } else {
      assert MergeTexts(span) == later;
      assert c != Str(t) && c != Str(u);
      MergeTextsOrder(rest, t, u);
    }
  }

  /** The distinct texts of a span come in the order of the cells where
      each first occurs. */
  lemma DistinctTextsOrder(span: seq<Cell>)
    ensures forall i, j | 0 <= i < j < |Dedup(MergeTexts(span))| ::
      && Str(Dedup(MergeTexts(span))[i]) in span && Str(Dedup(MergeTexts(span))[j]) in span
      && FirstIndex(span, Str(Dedup(MergeTexts(span))[i])) < FirstIndex(span, Str(Dedup(MergeTexts(span))[j]))
  {
    var texts := MergeTexts(span);
    var parts := Dedup(texts);
    DedupFirstOccurrenceOrder(texts);
    forall i, j | 0 <= i < j < |parts|
      ensures Str(parts[i]) in span && Str(parts[j]) in span
      ensures FirstIndex(span, Str(parts[i])) < FirstIndex(span, Str(parts[j]))
    {
      MergeTextsOrder(span, parts[i], parts[j]);
    }
  }

  /** The merged text of a span: its distinct texts joined with `、`. */
  function MergedText(span: seq<Cell>): string
  {
    Join(Dedup(MergeTexts(span)), MergeSeparator)
  }

  /** What the merged text says. A span with no text merges to the empty
      string. Otherwise, when no text holds the separator, the merged text
      splits back into a list without repeats that holds exactly the span's
      non-blank strings, ordered by the cell where each first occurs. */
  lemma MergedTextMeaning(span: seq<Cell>)
    ensures MergeTexts(span) == [] ==> MergedText(span) == ""
    ensures MergeTexts(span) != [] && (forall t | Str(t) in span :: MergeSeparator !in t) ==>
      var parts := Split(MergedText(span), MergeSeparator);
      && parts == Dedup(MergeTexts(span))
      && NoDuplicates(parts)
      && (forall t :: t in parts <==> Str(t) in span && Trim(t) != "")
      && (forall i, j | 0 <= i < j < |parts| ::
            FirstIndex(span, Str(parts[i])) < FirstIndex(span, Str(parts[j])))
  {
    var texts := MergeTexts(span);
    if texts != [] && (forall t | Str(t) in span :: MergeSeparator !in t) {
      var parts := Dedup(texts);
      assert texts[0] in parts;
      SplitJoin(parts, MergeSeparator);
      DistinctTextsOrder(span);
    }
  }

  /** A row with the merged text of its H..O written to H. */
  function MergeRow(row: Row): (r: Row)
    requires |row| >= SpanFirst + SpanWidth - 1
    ensures |r| == |row|
  {
    row[SpanFirst - 1 := Str(MergedText(row[SpanFirst - 1..SpanFirst + SpanWidth - 1]))]
  }

  /** Rows 3..`lastRow` merged. */
  function MergedAt(g: Grid, lastRow: int): (h: Grid)
    ensures |h| == |g| && forall i | 0 <= i < |g| :: |h[i]| == |g[i]|
  {
    seq(|g|, i requires 0 <= i < |g| =>
      if 3 <= i + 1 <= lastRow && |g[i]| >= SpanFirst + SpanWidth - 1 then MergeRow(g[i]) else g[i])
  }

  /** Merging no rows changes nothing. */
  lemma MergedAtNone(g: Grid, lastRow: int)
    requires lastRow < 3
    ensures MergedAt(g, lastRow) == g
  {
  }

  /** Extending the merged rows by one row writes that row's merged text to
      its H, taken from the row as it was before: earlier rows' merges do
      not touch it. */
  lemma MergedAtNext(g: Grid, width: nat, last: int)
    requires IsRect(g, width) && width >= SpanFirst + SpanWidth - 1 && 2 <= last < |g|
    ensures MergedAt(g, last)[last] == g[last]
    ensures MergedAt(g, last + 1) ==
      SetCell(MergedAt(g, last), last + 1, SpanFirst, Str(MergedText(g[last][SpanFirst - 1..SpanFirst + SpanWidth - 1])))
  {
    var v := Str(MergedText(g[last][SpanFirst - 1..SpanFirst + SpanWidth - 1]));
    var h := SetCell(MergedAt(g, last), last + 1, SpanFirst, v);
    assert MergedAt(g, last)[last] == g[last];
    forall i | 0 <= i < |g| ensures MergedAt(g, last + 1)[i] == h[i] {
      if i == last {
        assert MergedAt(g, last + 1)[i] == MergeRow(g[i]);
      }
    }
  }

  /** `hi, hi - 1, ..., lo`. */
  function CountDown(hi: int, lo: int): (cs: seq<int>)
    decreases hi - lo
  {
    if hi < lo then [] else [hi] + CountDown(hi - 1, lo)
  }

  /** A count-down is strictly decreasing and holds exactly `lo..hi`. */
  lemma {:induction false} CountDownFacts(hi: int, lo: int)
    ensures StrictlyDecreasing(CountDown(hi, lo))
    ensures forall q :: q in CountDown(hi, lo) <==> lo <= q <= hi
    decreases hi - lo
  {
    if hi >= lo {
      CountDownFacts(hi - 1, lo);
      var cs := CountDown(hi, lo);
      forall j | 1 <= j < |cs| ensures cs[0] > cs[j] {
        assert cs[j] in CountDown(hi - 1, lo);
      }
    }
  }

  /** The columns O down to I, deleted after the merge. */
  function MergeDeleteOrder(): seq<int>
  {
    CountDown(SpanFirst + SpanWidth - 1, SpanFirst + 1)
  }

  /** A row without its columns I..O: A..H, then what followed O. A row
      without column O is kept as it is: its first deletion is refused. */
  function DropMergedColumns(row: Row): Row
  {
    if |row| >= SpanFirst + SpanWidth - 1 then row[..SpanFirst] + row[SpanFirst + SpanWidth - 1..] else row
  }

  /** Every row of the sheet without its columns I..O. */
  function DropMerged(g: Grid): (h: Grid)
    ensures |h| == |g|
  {
    seq(|g|, i requires 0 <= i < |g| => DropMergedColumns(g[i]))
  }

  /** On a sheet that has column O, deleting O down to I one column at a
      time drops exactly the columns I..O from every row. */
  lemma MergeDeleteSheet(g: Grid, width: nat)
    requires IsRect(g, width) && width >= SpanFirst + SpanWidth - 1
    ensures DeleteColumns(g, MergeDeleteOrder()) == DropMerged(g)
  {
    forall i | 0 <= i < |g| ensures DeleteColumns(g, MergeDeleteOrder())[i] == DropMerged(g)[i] {
      DeleteColumnsRows(g, MergeDeleteOrder(), i);
      MergeDeleteRow(g[i]);
    }
  }

  /** The merge step: merge rows 3..lastRow (the sheet's last row, not the
      last valid row), then drop columns I..O. */
  function CombineStep(g: Grid): Grid
  {
    DropMerged(MergedAt(g, LastRow(g)))
  }

  /** The merge step succeeds when the sheet has columns H..O. */
  predicate CombineSucceeds(width: nat)
  {
    width >= SpanFirst + SpanWidth - 1
  }

  /** After the merge step every row is A..G as before, then H (merged on
      rows 3..lastRow, as before elsewhere), then what followed O: exactly
      the original columns I..O are gone. */
  lemma CombineLayout(g: Grid, width: nat, i: int)
    requires IsRect(g, width) && CombineSucceeds(width) && 0 <= i < |g|
    ensures CombineStep(g)[i] ==
      g[i][..7] + [if 3 <= i + 1 <= LastRow(g) then Str(MergedText(g[i][7..15])) else g[i][7]] + g[i][15..]
  {
    CombineRow(g, i);
    MergedPrefix(g, i);
  }

  /** Columns A..H of a row after the merge: A..G as before, then H merged
      on rows 3..lastRow and as before elsewhere. */
  lemma MergedPrefix(g: Grid, i: int)
    requires 0 <= i < |g| && |g[i]| >= SpanFirst + SpanWidth - 1
    ensures MergedAt(g, LastRow(g))[i][..8] ==
      g[i][..7] + [if 3 <= i + 1 <= LastRow(g) then Str(MergedText(g[i][7..15])) else g[i][7]]
  {
    var m := MergedAt(g, LastRow(g));
    if 3 <= i + 1 <= LastRow(g) {
      UpdatedPrefix(g[i], 7, Str(MergedText(g[i][7..15])));
    } else {
      UpdatedPrefix(g[i], 7, g[i][7]);
      assert g[i][7 := g[i][7]] == g[i];
    }
  }

  /** The prefix up to an updated position ends with the new value. */
  lemma UpdatedPrefix(row: Row, k: int, v: Cell)
    requires 0 <= k < |row|
    ensures row[k := v][..k + 1] == row[..k] + [v]
  {
  }

  /** Deleting O down to I from a row that has them leaves A..H and what
      followed O. */
  lemma MergeDeleteRow(row: Row)
    requires |row| >= SpanFirst + SpanWidth - 1
    ensures DeleteEach(row, MergeDeleteOrder()) == row[..SpanFirst] + row[SpanFirst + SpanWidth - 1..]
  {
    CountDownFacts(15, 9);
    DeleteDescendingKeepsOthers(row, MergeDeleteOrder());
    KeepBlockGone(row, 9, 15, Elems(MergeDeleteOrder()));
  }

  /** A row after the merge step: its merged form up to H, then what followed O. */
  lemma CombineRow(g: Grid, i: int)
    requires 0 <= i < |g| && |g[i]| >= SpanFirst + SpanWidth - 1
    ensures CombineStep(g)[i] == MergedAt(g, LastRow(g))[i][..8] + g[i][15..]
  {
    var m := MergedAt(g, LastRow(g));
    assert m[i][15..] == g[i][15..];
  }

  /** The merge step keeps the cells of columns A..G. */
  lemma CombineKeepsFront(g: Grid, width: nat, r: int, c: int)
    requires IsRect(g, width) && CombineSucceeds(width) && 1 <= c <= 7
    ensures At(CombineStep(g), r, c) == At(g, r, c)
  {
    if 1 <= r <= |g| {
      CombineFrontRow(g, width, r - 1);
      assert CombineStep(g)[r - 1][c - 1] == CombineStep(g)[r - 1][..7][c - 1];
    }
  }

  /** Columns A..G of a row after the merge step. */
  lemma CombineFrontRow(g: Grid, width: nat, i: int)
    requires IsRect(g, width) && CombineSucceeds(width) && 0 <= i < |g|
    ensures |CombineStep(g)[i]| >= 7 && CombineStep(g)[i][..7] == g[i][..7]
  {
    var h := if 3 <= i + 1 <= LastRow(g) then Str(MergedText(g[i][7..15])) else g[i][7];
    CombineLayout(g, width, i);
    assert CombineStep(g)[i] == g[i][..7] + [h] + g[i][15..];
  }

  /** The merge step leaves a sheet seven columns narrower. */
  lemma CombineWidth(g: Grid, width: nat)
    requires IsRect(g, width) && CombineSucceeds(width)
    ensures IsRect(CombineStep(g), width - 7)
  {
    forall i | 0 <= i < |g| ensures |CombineStep(g)[i]| == width - 7 {
      CombineRow(g, i);
    }
  }

  /** The merge step keeps columns A..G in place, so the key column and the
      last valid row are kept too. */
  lemma CombineKeepsLastValidRow(g: Grid, width: nat)
    requires IsRect(g, width) && CombineSucceeds(width)
    ensures forall r, c | 1 <= c <= 7 :: At(CombineStep(g), r, c) == At(g, r, c)
    ensures SameKeys(g, CombineStep(g)) && LastValidRow(CombineStep(g)) == LastValidRow(g)
  {
    forall r, c | 1 <= c <= 7 ensures At(CombineStep(g), r, c) == At(g, r, c) {
      CombineKeepsFront(g, width, r, c);
    }
    LastValidRowFromKeys(g, CombineStep(g));
  }

  // ----- `insertHeaders` -----

  /** The header row B2:I2 as one row of cells. */
  function HeaderBlock(): (block: Grid)
    ensures |block| == 1 && |block[0]| == |Headers|
  {
    [seq(|Headers|, k requires 0 <= k < |Headers| => Str(Headers[k]))]
  }

  /** The header step succeeds when the sheet has cell I2. */
  predicate HeaderSucceeds(g: Grid, width: nat)
  {
    RangeFits(g, width, 2, 2, 1, |Headers|)
  }

  /** The header step. */
  function HeaderStep(g: Grid): Grid
  {
    Paste(g, 2, 2, HeaderBlock())
  }

  /** After the header step, B2..I2 hold the eight labels in order and no
      other cell has changed; the last valid row is kept. */
  lemma HeaderLayout(g: Grid, width: nat)
    requires IsRect(g, width) && HeaderSucceeds(g, width)
    ensures forall k | 0 <= k < |Headers| :: At(HeaderStep(g), 2, 2 + k) == Str(Headers[k])
    ensures forall r, c | r != 2 || c < 2 || c > 9 :: At(HeaderStep(g), r, c) == At(g, r, c)
    ensures SameKeys(g, HeaderStep(g)) && LastValidRow(HeaderStep(g)) == LastValidRow(g)
  {
    forall r, c ensures At(HeaderStep(g), r, c) ==
      if r == 2 && 2 <= c <= 9 then Str(Headers[c - 2]) else At(g, r, c)
    {
      PasteAt(g, 2, 2, HeaderBlock(), r, c);
    }
    LastValidRowFromKeys(g, HeaderStep(g));
  }
}

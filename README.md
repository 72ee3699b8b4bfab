# Daily attendance report — a verified model

`DailyReport.js` is a Google Apps Script that tidies a daily attendance sheet.
`processDailyReport` first deletes the columns L, K, J, I and G. Then it runs
these steps in order:

- `replaceBoolean`: ticked checkboxes become the presence glyph `○` and
  unticked ones become the empty string.
- `clearBasedOnCondition`: empties the times of each row marked absent or
  cancelled.
- `addSequenceNumbers`: numbers the data rows.
- `formatAndCombineText`: merges the texts of H..O into H and deletes I..O.
- `insertHeaders`: writes the header labels.
- `setColumnWidthsAndMerge` and `setBorders`: formatting only.
- `addSummary`: appends a block of counting formulas below the data.

Every step finds the data's extent with `getValidDataRange`. The last valid
row is the last row whose name cell (column C) holds something non-blank.

The model has three layers:

- The sheet is a class, `Sheets.Sheet`. It holds a rectangular grid of cells
  and the host operations the script calls (`getValues`, `setValues`,
  `setValue`, `clearContent`, `deleteColumn`). A range the sheet does not
  contain is refused: the operation returns `ok == false` and changes nothing.
  This stands for the host's exception.
- Each step is written as the script writes it, as a method of module
  `DailyReport`. It has the same loops, the same reads and writes, and the
  same order. Each method is proved to leave the sheet equal to a function of
  the old sheet (modules `ReportSpec` and `Summary`). It also reports failure
  exactly when the host would throw.
- Lemmas about those functions state what the script promises:
  - which original columns the deletions remove;
  - what the last valid row is;
  - that only booleans change, and the cleared cells;
  - that the numbering has no gaps;
  - what the merged text means;
  - the summary layout.

  Module `Pipeline` composes the steps into the whole run. Module
  `ReportProperties` states what a successful run leaves on the sheet as the
  script found it, and when a run succeeds.

Modules:

| module | file | contents |
|---|---|---|
| `Cells` | `cells.dfy` | cell values, JavaScript truthiness, `trim`, the boolean rewrite |
| `Text` | `text.dfy` | `[...new Set(xs)]`, `join`, decimal text, with `Split`/`ParseDecimal` as inverses |
| `Columns` | `columns.dfy` | letter ↔ column number, the descending sort |
| `Grids` | `grids.dfy` | grids, last used row/column, deleting columns and its reference meaning `Keep` |
| `Sheets` | `sheets.dfy` | the `Sheet` class and its host operations |
| `ReportSpec` | `report_spec.dfy` | each step as a function on grids, with its properties |
| `Summary` | `summary.dfy` | the summary block as a series of single-cell writes, and its layout |
| `Pipeline` | `pipeline.dfy` | the whole run as a function, stopping at the first failing step |
| `DailyReport` | `daily_report.dfy` | the script's functions as methods on a `Sheet` |
| `ReportProperties` | `report_properties.dfy` | what a successful run promises |

The two time columns that `clearBasedOnCondition` empties are F and G of the
sheet it runs on. Column G was deleted first, so G is the original column H.
`ReportProperties.ReportClearTimes` states this in terms of the sheet as
found.

When `getLastRow()` is 1 or 2, the script reads `C3:C1` or `C3:C2`. The model
reads the host's normalised range: the rows from the last row down to row 3.
No row below the last row holds anything, so the result is 3 in every case.
An empty sheet gives `C3:C0`, which is not a range at all, and is refused.

## Model

| member | source | states |
|---|---|---|
| Cells.TrimStart | DailyReport.js:49 | the result is a suffix of the input, what was removed is all whitespace, and the result does not start with whitespace |
| Cells.TrimEnd | DailyReport.js:49 | the result is a prefix of the input, what was removed is all whitespace, and the result does not end with whitespace |
| Cells.TrimEmptyIffAllWhitespace | DailyReport.js:49 | `trim` gives `''` exactly when the string is whitespace only |
| Cells.KeyCellHasContent | DailyReport.js:44-49 | a cell that marks a data row is a used cell, so it lies at or above `getLastRow()` |
| Cells.NormalizeBoolean | DailyReport.js:85-86 | `true` becomes `○`, `false` becomes `''`, a non-boolean cell is unchanged, and the result is never a boolean |
| Cells.NormalizeBooleanMarked | DailyReport.js:85 | after the rewrite a cell holds `○` exactly when it held `○` or `true` |
| Cells.PresenceNotBlank | DailyReport.js:85 | the glyph `○` is not blank after `trim` |
| Cells.NormalizeBooleanKeepsKey | DailyReport.js:49 | the boolean rewrite does not change whether a name cell marks a data row |
| Columns.ColumnLetter | DailyReport.js:7-9 | the letter of columns 1..26 lies in `A..Z` |
| Columns.LetterIndexOfColumnLetter | DailyReport.js:7-9 | `code − 'A' + 1` inverts the letter of a column |
| Columns.ColumnIndices | DailyReport.js:7-9 | one column number per letter; each letter `A..Z` becomes a column number in 1..26 whose letter is that letter again; distinct letters give distinct column numbers |
| Columns.ColumnIndicesDistinct | DailyReport.js:6-9 | distinct letters give distinct column numbers |
| Columns.InsertDescending | DailyReport.js:12 | inserting adds exactly the new value to the multiset and lengthens by one |
| Columns.InsertDescendingSorted | DailyReport.js:12 | inserting into a non-increasing sequence keeps it non-increasing |
| Columns.SortDescending | DailyReport.js:12 | `sort((a, b) => b - a)` gives a permutation of the input that is non-increasing |
| Columns.SortDistinctStrict | DailyReport.js:12 | distinct numbers sort into a strictly decreasing sequence of the same numbers |
| Columns.SortDescendingSorted | DailyReport.js:12 | an already descending sequence is left as it is |
| Text.FirstIndex | DailyReport.js:132 | the position of the first occurrence: it holds the value and no earlier position does |
| Text.Dedup | DailyReport.js:132 | `[...new Set(xs)]` holds exactly the values of `xs`, with no repeats |
| Text.DedupFirstOccurrenceOrder | DailyReport.js:132 | the distinct values come out in the order of their first occurrence in `xs` |
| Text.Split | DailyReport.js:135 | the reference inverse of `join`: always at least one piece |
| Text.SplitJoin | DailyReport.js:135 | splitting `parts.join(sep)` gives back `parts` when no part holds the separator |
| Text.JoinEmpty | DailyReport.js:135 | the join is `''` exactly for no parts or one empty part |
| Text.Decimal | DailyReport.js:189 | the template-literal text of a row number is non-empty, all digits, and has no leading zero |
| Text.ParseDecimalOfDecimal | DailyReport.js:189 | the decimal text of a number reads back as that number |
| Text.DecimalInjective | DailyReport.js:189 | different row numbers have different texts in the formulas |
| Grids.SetCell | DailyReport.js:112 | `setValue` puts the value in its cell, keeps every other cell, and keeps the shape |
| Grids.Paste | DailyReport.js:90 | `setValues` keeps the sheet's shape |
| Grids.PasteAt | DailyReport.js:90 | inside the block each cell takes the block's value; outside, the old value |
| Grids.Filled | DailyReport.js:102 | definition (no contract): the `numRows` × `numCols` block of one value; `clearContent` pastes it with the empty cell |
| Grids.LastRow | DailyReport.js:44 | `getLastRow()` is a row holding a used cell, with none below it, or 0 for an empty sheet |
| Grids.NoContentBelowLastRow | DailyReport.js:44 | no cell below `getLastRow()` is used |
| Grids.LastInRow | DailyReport.js:80 | the last used column of one row, with nothing used right of it |
| Grids.LastColumn | DailyReport.js:80 | `getLastColumn()` is at least every row's last used column and equals one of them |
| Grids.LastColumnBounds | DailyReport.js:80 | a sheet with a used row has a used column, and the last one lies within the width |
| Grids.NoContentRightOfLastColumn | DailyReport.js:80 | no cell right of `getLastColumn()` is used |
| Grids.DeleteColumnGrid | DailyReport.js:14 | `deleteColumn` keeps the number of rows |
| Grids.DeleteColumns | DailyReport.js:12-20 | deletions one after another keep the number of rows |
| Grids.DeleteColumnsRows | DailyReport.js:12-20 | deleting on the sheet is deleting on each row separately |
| Grids.WidthAfterAtMost | DailyReport.js:12-20 | deletions never widen a row |
| Grids.DeleteEachWidth | DailyReport.js:12-20 | a row's width after the deletions depends only on its width before them |
| Grids.DeleteColumnsRect | DailyReport.js:12-20 | a rectangular sheet stays rectangular under deletions |
| Grids.KeepRemoveOne | DailyReport.js:14 | deleting column `c` when only lower columns are marked gone is marking `c` gone too |
| Grids.DeleteDescendingKeepsOthers | DailyReport.js:12-20 | deleting in strictly decreasing order removes exactly the columns with those numbers in the original row and keeps the rest in order |
| Grids.KeepBlockGone | DailyReport.js:142-144 | removing the original columns `lo..hi` joins what was before and after them |
| Sheets.Sheet.constructor | DailyReport.js:5 | the sheet holds the given rectangular grid |
| Sheets.Sheet.GetValues | DailyReport.js:81 | refused exactly when the range is outside the sheet; otherwise a block of the range's size holding the sheet's cells |
| Sheets.Sheet.SetValues | DailyReport.js:90 | refused exactly for a ragged block or one outside the sheet; otherwise the block is pasted |
| Sheets.Sheet.SetValue | DailyReport.js:112 | refused exactly for a cell outside the sheet; otherwise that cell is set |
| Sheets.Sheet.ClearContent | DailyReport.js:102 | refused exactly for a range outside the sheet; otherwise the range is emptied |
| Sheets.Sheet.DeleteColumn | DailyReport.js:14 | refused exactly for a column the sheet does not have; otherwise the column goes and the width drops by one |
| ReportSpec.ReportPruneOrder | DailyReport.js:6-12 | `L, K, J, I, G` are the columns 12, 11, 10, 9, 7, and the sort keeps that order |
| ReportSpec.PruneRemovesNamedColumns | DailyReport.js:6-20 | for distinct letters, the deletions remove exactly the columns the letters name in the original sheet and keep all others in order |
| ReportSpec.ReportPruneLayout | DailyReport.js:6-20 | a row with at least twelve columns keeps A..F, H, and M onward |
| ReportSpec.PruneKeepRow | DailyReport.js:6-20 | keeping all but G and I..L leaves A..F, H and M onward |
| ReportSpec.PrunedColumnsNamed | DailyReport.js:6-9 | the five letters are distinct and name exactly G and I..L |
| ReportSpec.PruneDropsIToL | DailyReport.js:12-20 | I..L all go and everything after them stays |
| ReportSpec.PruneKeepsFront | DailyReport.js:12-20 | of A..H only G goes |
| ReportSpec.KeyRowUpTo | DailyReport.js:46-52 | at least 3; either 3 or a row whose C cell is truthy and non-blank; no such row after it |
| ReportSpec.LastValidRowIsLastKeyRow | DailyReport.js:44-52 | `lastValidRow` is at least 3 and is the last row of the whole sheet whose C cell marks data, or 3 if none does |
| ReportSpec.LastValidRowFromKeys | DailyReport.js:46-52 | two sheets that agree on which C cells mark data have the same last valid row |
| ReportSpec.ReadableBounds | DailyReport.js:45 | once `C3:C<lastRow>` can be read, the last valid row is a row of the sheet and some column is used |
| ReportSpec.KeyRowReadable | DailyReport.js:44-45 | a sheet with a name in its last valid row can read `C3:C<lastRow>` |
| ReportSpec.ReplacedBooleans | DailyReport.js:80-90 | the sheet keeps its shape |
| ReportSpec.ReplacedBooleansAt | DailyReport.js:80-90 | inside the block `true` becomes `○` and `false` becomes `''`; every other cell is unchanged |
| ReportSpec.PasteNormalizedBlock | DailyReport.js:80-90 | writing the rewritten block back at A1 is the boolean step on that block |
| ReportSpec.ReplaceBooleanLeavesNoBoolean | DailyReport.js:83-88 | no boolean is left in the block |
| ReportSpec.ReplaceBooleanKeepsLastValidRow | DailyReport.js:78-91 | the boolean step keeps which rows mark data and the last valid row |
| ReportSpec.NoneQualifyNext | DailyReport.js:100-104 | a row with neither mark extends a run of rows with neither mark |
| ReportSpec.ClearTimes | DailyReport.js:102 | clearing F:G keeps the row's length |
| ReportSpec.ClearedOnCondition | DailyReport.js:100-104 | the clearing keeps the sheet's shape |
| ReportSpec.ClearedOnConditionAt | DailyReport.js:100-104 | in rows 3..last, F and G become empty exactly when D or E holds `○`; no other cell changes |
| ReportSpec.ClearedNothing | DailyReport.js:100-104 | with no marked row nothing is cleared |
| ReportSpec.ClearKeepsLastValidRow | DailyReport.js:93-105 | the clearing step keeps which rows mark data and the last valid row |
| ReportSpec.ClearIdempotent | DailyReport.js:93-105 | clearing twice is clearing once |
| ReportSpec.ClearedOnConditionNext | DailyReport.js:100-104 | one more loop turn clears F:G of that row exactly when it is marked |
| ReportSpec.ClearedOnConditionSkip | DailyReport.js:100-104 | an unmarked row changes nothing |
| ReportSpec.Numbered | DailyReport.js:109-113 | the numbering keeps the sheet's shape |
| ReportSpec.NumberedAt | DailyReport.js:109-113 | A(r) = r − 2 for rows 3..last, so the numbers are 1, 2, 3, … without gaps; no other cell changes |
| ReportSpec.NumberedNone | DailyReport.js:111 | with no rows to number nothing changes |
| ReportSpec.NumberedNext | DailyReport.js:111-113 | one more loop turn writes the next number into column A of the next row |
| ReportSpec.NumberKeepsLastValidRow | DailyReport.js:107-114 | the numbering keeps which rows mark data and the last valid row |
| ReportSpec.MergeTexts | DailyReport.js:127-129 | the filter keeps exactly the span's strings that are non-blank after `trim` |
| ReportSpec.MergeTextsOrder | DailyReport.js:127-129 | the filter keeps the span's order: of two kept texts, the one that comes first among the kept texts is the one whose first cell in H..O comes first |
| ReportSpec.DistinctTextsOrder | DailyReport.js:127-132 | the distinct texts come in the order of the cells of H..O where each first occurs |
| ReportSpec.MergedTextMeaning | DailyReport.js:127-135 | a span with no text merges to `''`. Otherwise, when no text holds `、`, the merged text splits back into a list with no repeats. The list holds exactly the span's non-blank strings, ordered by the cell of H..O where each first occurs |
| Text.FirstIndexCons | DailyReport.js:132 | the first occurrence in `[x] + xs` is at the front or one past the first occurrence in `xs` |
| ReportSpec.MergeRow | DailyReport.js:138 | writing the merged text into H keeps the row's length |
| ReportSpec.MergedAt | DailyReport.js:121-139 | the merge loop keeps the sheet's shape |
| ReportSpec.MergedAtNone | DailyReport.js:121 | with `lastRow` below 3 the loop changes nothing |
| ReportSpec.MergedAtNext | DailyReport.js:121-139 | one more loop turn writes that row's merged text into H, read from the row as it was; earlier turns do not touch it |
| ReportSpec.CountDownFacts | DailyReport.js:142 | `col = 15 … 9` counts down strictly and visits exactly 9..15 |
| ReportSpec.DropMerged | DailyReport.js:142-144 | dropping I..O keeps the number of rows |
| ReportSpec.MergeDeleteSheet | DailyReport.js:142-144 | deleting O down to I one at a time drops exactly the original columns I..O from every row |
| ReportSpec.CombineLayout | DailyReport.js:121-144 | after the merge step a row is A..G as before, then H (merged on rows 3..lastRow), then what followed O |
| ReportSpec.MergedPrefix | DailyReport.js:121-139 | A..H of a row after the merge loop |
| ReportSpec.MergeDeleteRow | DailyReport.js:142-144 | deleting O down to I from a row leaves A..H and what followed O |
| ReportSpec.CombineRow | DailyReport.js:121-144 | a row after the merge step is its merged A..H, then what followed O |
| ReportSpec.CombineKeepsFront | DailyReport.js:142-144 | the merge step keeps every cell of A..G |
| ReportSpec.CombineFrontRow | DailyReport.js:142-144 | A..G of a row are kept by the merge step |
| ReportSpec.CombineWidth | DailyReport.js:142-144 | the merge step leaves a rectangular sheet seven columns narrower |
| ReportSpec.CombineKeepsLastValidRow | DailyReport.js:116-145 | the merge step keeps A..G, which rows mark data, and the last valid row |
| ReportSpec.HeaderBlock | DailyReport.js:64-75 | the header block is one row of the eight labels |
| ReportSpec.HeaderLayout | DailyReport.js:61-76 | B2..I2 hold the eight labels in order, no other cell changes, and the last valid row is kept |
| Summary.ApplyWrites | DailyReport.js:218-235 | a series of single-cell writes keeps the sheet's shape |
| Summary.LastWrite | DailyReport.js:218-235 | a value is found exactly when some write in the series targets the cell |
| Summary.ApplyWritesAt | DailyReport.js:218-235 | all writes are accepted exactly when each targets a cell of the sheet; then each cell holds the last value written to it, or its old value |
| Summary.ApplyWritesStopsAtRefusal | DailyReport.js:218-235 | a refused write fails the series, and the writes before it stay |
| Summary.ApplyOne | DailyReport.js:222 | the first write is refused outside the sheet and otherwise made before the rest |
| Summary.ApplyWritesAppend | DailyReport.js:218-235 | writing `a` then `b` is writing `a + b`, except that a refusal in `a` skips `b` |
| Summary.LastWriteAppend | DailyReport.js:218-235 | the last write of `a + b` to a cell is `b`'s if `b` writes it, else `a`'s |
| Summary.A1ColumnMeaning | DailyReport.js:201 | `getA1Notation()` of a column range splits at its colon into letter-and-first-row and letter-and-last-row, which read back as the column and the two row numbers |
| Summary.A1ColumnParts | DailyReport.js:201 | the A1 text is two pieces around one colon |
| Summary.Formulas | DailyReport.js:186-215 | there are seven formulas |
| Summary.WritesFromNext | DailyReport.js:218-235 | writing lines `k..6` is writing line `k`, then, unless it was refused, lines `k+1..6` |
| Summary.LineOfLayout | DailyReport.js:219-234 | one item's writes put its label in F, its formula in H only if non-empty, and `人` in I only if the label is non-empty |
| Summary.LineWritesLayout | DailyReport.js:218-234 | item `k`'s writes land on row `lastValidRow + 2 + k` and nowhere else |
| Summary.WritesFromLayout | DailyReport.js:218-235 | the writes of items `k..6` produce the layout from row `lastValidRow + 2 + k` on |
| Summary.SummaryWritesLayout | DailyReport.js:182-235 | the last write to each cell is the declared layout, starting at row `lastValidRow + 2` |
| Summary.SummaryWritesRange | DailyReport.js:182-234 | every write lands on rows `lastValidRow + 2 … lastValidRow + 8` and columns F, H or I |
| Summary.LineOfRange | DailyReport.js:219-234 | one item's writes stay on its row, in columns F, H and I |
| Summary.SummaryTotalLine | DailyReport.js:199-206 | with `s = lastValidRow + 2`, the total line `s + 3` holds the label `合計` and `=SUM(H<s>:H<s+2>)`; rows `s..s+2` hold the three counting formulas in H; the blank item on `s + 4` gets a blank label, no formula and no unit |
| Summary.SummaryWritesFit | DailyReport.js:218-235 | all writes are accepted exactly when the sheet has rows down to `lastValidRow + 8` and column I |
| Summary.SummaryWritesCells | DailyReport.js:218-235 | after accepted writes each cell holds the layout's value, or its old one where the layout has none |
| Summary.SummaryStepOutcome | DailyReport.js:178-235 | `addSummary` succeeds exactly when C can be read and the block fits; then the block holds the layout and every other cell is unchanged |
| Pipeline.PruneRow | DailyReport.js:6-20 | after the deletions a row of twelve or more cells is A..F, H, then M onward |
| Pipeline.PruneRowFront | DailyReport.js:6-20 | such a row is five cells shorter, keeps A..F, and has H in seventh place |
| Pipeline.KeptFront | DailyReport.js:6-20 | A..F, H, then M onward is five cells shorter, keeps A..F, and has H in seventh place |
| Pipeline.PruneCell | DailyReport.js:6-20 | A..F keep their cells through the deletions |
| Pipeline.PruneCellH | DailyReport.js:6-20 | column G after the deletions is the original H |
| Pipeline.PrunedWidthOf | DailyReport.js:6-20 | twelve or more columns lose exactly five |
| Pipeline.ReportOrderWidth | DailyReport.js:12-20 | deleting 12, 11, 10, 9, 7 from twelve or more columns leaves five fewer |
| Pipeline.PruneShape | DailyReport.js:6-20 | on twelve or more columns the deletions leave a rectangular sheet five narrower, with A..F and the last valid row kept |
| Pipeline.PruneNarrow | DailyReport.js:6-20 | fewer than twelve columns leave fewer than fifteen |
| ReportProperties.BooleansAt | DailyReport.js:80-90 | up to the last valid row the boolean step rewrites every cell, used column or not |
| ReportProperties.CombineCell | DailyReport.js:121-144 | after the merge step a cell is the cell at the same place, the cell seven columns on, or text |
| ReportProperties.MergedRowCell | DailyReport.js:142-144 | a cell of a merged, shortened row comes from the same place, seven places on, or is the merged text |
| ReportProperties.NumbersShape | DailyReport.js:25-27 | the first three steps keep the sheet's shape |
| ReportProperties.StagesKeep | DailyReport.js:25-28 | up to the merge every stage keeps the rows, the width (seven fewer after the merge), the key cells and the last valid row |
| ReportProperties.HeadersKeepShape | DailyReport.js:75 | the header step keeps the sheet's shape |
| ReportProperties.KeyStage | DailyReport.js:42-45 | a stage that kept the key cells can still read `C3:C<lastRow>` |
| ReportProperties.StepsOk | DailyReport.js:25-32 | the steps succeed exactly when each step in turn fits the sheet the previous steps left; the result is then the summary step's sheet |
| ReportProperties.StepsSucceedWhen | DailyReport.js:25-32 | on a pruned sheet of 16+ columns with a name in its last valid row and eight rows below it, the steps succeed (a sufficient condition: a sheet with only a title also succeeds) |
| ReportProperties.StepsSucceedOnlyWhen | DailyReport.js:25-32 | successful steps need 16+ columns and eight rows below the last valid row |
| ReportProperties.StepsFacts | DailyReport.js:25-32 | the shape, last valid row and final cells of every stage of a successful run |
| ReportProperties.StepsShape | DailyReport.js:25-32 | a successful run of the steps keeps the rows and loses seven columns |
| ReportProperties.StepsHeaders | DailyReport.js:29 | after the steps B2..I2 hold the labels |
| ReportProperties.StepsKeepFront | DailyReport.js:28-32 | A..G of the data rows end as the numbering step left them |
| ReportProperties.StepsNumbers | DailyReport.js:27 | after the steps A(r) = r − 2 for every data row |
| ReportProperties.StepsSummary | DailyReport.js:32 | after the steps the summary block holds the declared layout |
| ReportProperties.ClearedTimes | DailyReport.js:25-26 | after the first two steps F and G of a data row are empty when D or E was `○` or `true`, else hold their value with booleans rewritten |
| ReportProperties.StepsClearTimes | DailyReport.js:25-27 | the same holds at the end of the steps |
| ReportProperties.NoBooleanBeforeCombine | DailyReport.js:25-27 | no boolean survives the first three steps up to the last valid row |
| ReportProperties.NoBooleanAfterCombine | DailyReport.js:25-28 | nor the merge step |
| ReportProperties.CombineKeepsNoBoolean | DailyReport.js:121-144 | a row without booleans has none after the merge step |
| ReportProperties.StepsNoBooleans | DailyReport.js:25-32 | after the steps no cell up to the last valid row is a boolean |
| ReportProperties.HeaderKeepsNoBoolean | DailyReport.js:75 | the header step writes text only |
| ReportProperties.StepsNeedMergeRoom | DailyReport.js:28 | the steps fail unless the sheet has columns H..O |
| ReportProperties.ReportSucceedsOnlyWhen | DailyReport.js:2-39 | the report succeeds only on 21+ columns with eight rows below the last valid row |
| ReportProperties.ReportSucceedsWhen | DailyReport.js:2-39 | a sheet of 21+ columns with a name in its last valid row and eight rows below it is processed without failure (a sufficient condition, not the converse of `ReportSucceedsOnlyWhen`) |
| ReportProperties.ReportPruned | DailyReport.js:6-25 | a successful report runs the steps on the pruned sheet: same rows, five columns fewer, same A..F and last valid row |
| ReportProperties.ReportShape | DailyReport.js:2-39 | a successful report leaves the rows and twelve columns fewer |
| ReportProperties.ReportLayout | DailyReport.js:2-39 | a successful report leaves the labels in B2:I2, 1, 2, 3, … in column A of the data rows, and the summary block |
| ReportProperties.ReportClearTimes | DailyReport.js:6-26 | in data row `r` of the sheet as found, F and the original H end empty when D or E was marked, else keep their value with booleans rewritten |
| ReportProperties.ReportNoBooleans | DailyReport.js:2-39 | a successful report leaves no boolean up to the last valid row |
| DailyReport.ProcessDailyReport | DailyReport.js:2-39 | the run leaves the outcome of `Pipeline.Report` on the sheet as found: the deletions, then the steps up to the first failure |
| DailyReport.RunSteps | DailyReport.js:25-32 | the steps after the deletions give `Pipeline.Steps` |
| DailyReport.RunLayoutSteps | DailyReport.js:28-32 | the steps from the merge on give `Pipeline.LayoutSteps` |
| DailyReport.PruneColumns | DailyReport.js:6-20 | the loop's deletions, with a refused one skipped, are the letters' columns deleted highest first |
| DailyReport.GetValidDataRange | DailyReport.js:42-59 | refused exactly when `C3:C<lastRow>` is not readable; otherwise returns `getLastRow()` and the last valid row |
| DailyReport.ReplaceBoolean | DailyReport.js:78-91 | fails exactly when the block is not in the sheet, leaving it unchanged; otherwise leaves the boolean step's sheet |
| DailyReport.RewriteBlock | DailyReport.js:80-90 | reading, rewriting and writing back rows 1..rows × columns 1..cols is the boolean step on that block |
| DailyReport.RewriteBooleans | DailyReport.js:83-88 | the nested loops rewrite every cell of the read block by the boolean rewrite and keep its shape |
| DailyReport.ClearBasedOnCondition | DailyReport.js:93-105 | fails exactly when D/E are not in the sheet, or F:G are not and a row is marked; otherwise leaves the clearing step's sheet |
| DailyReport.ClearRows | DailyReport.js:94-104 | the reads of D and E, then the loop, give the clearing of rows 3..lastValidRow |
| DailyReport.ClearMarkedRows | DailyReport.js:100-104 | the loop clears F:G of exactly the marked rows; it fails exactly when F:G lie outside the sheet and some row is marked, and then nothing has changed |
| DailyReport.ClearIfMarked | DailyReport.js:101-103 | one loop turn clears F:G of the row exactly when D or E holds `○` |
| DailyReport.AddSequenceNumbers | DailyReport.js:107-114 | fails exactly when rows 3..lastValidRow are not in the sheet; otherwise leaves the numbering step's sheet |
| DailyReport.NumberRows | DailyReport.js:109-113 | the loop writes 1, 2, 3, … into column A of rows 3..lastValidRow |
| DailyReport.FormatAndCombineText | DailyReport.js:116-145 | fails exactly when the sheet has no column O, leaving it unchanged; otherwise leaves the merge step's sheet, seven columns narrower |
| DailyReport.MergeRows | DailyReport.js:121-139 | the loop writes each row's merged text into H for rows 3..lastRow |
| DailyReport.DeleteMergedColumns | DailyReport.js:142-144 | the loop drops exactly the original columns I..O, or fails and changes nothing when there is no column O |
| DailyReport.InsertHeaders | DailyReport.js:61-76 | fails exactly when I2 is not in the sheet; otherwise leaves the header step's sheet |
| DailyReport.SetColumnWidthsAndMerge | DailyReport.js:147-157 | fails exactly when H2:I<lastValidRow> is not in the sheet |
| DailyReport.SetBorders | DailyReport.js:159-176 | fails exactly when A2:I<lastValidRow> is not in the sheet |
| DailyReport.AddSummary | DailyReport.js:178-235 | leaves the summary step's sheet and outcome |
| DailyReport.WriteSummaryLines | DailyReport.js:218-235 | the item loop makes the block's writes in order and stops at the first refusal |
| DailyReport.WriteNumberedLine | DailyReport.js:218-235 | one turn of the item loop makes item `k`'s writes; the remaining writes are items `k+1..6` |
| DailyReport.WriteSummaryLine | DailyReport.js:219-234 | one item's label, formula and unit writes, stopping at a refusal |
| Pipeline.Report | DailyReport.js:2-39 | definition (no contract): `processDailyReport` as a function of the sheet as found: the column deletions, then `Steps`, with the outcome of the first failing step |
| Pipeline.Steps | DailyReport.js:25-32 | definition (no contract): the steps from `replaceBoolean` to `addSummary` in order, stopping at the first that fails |
| ReportSpec.LastValidRow | DailyReport.js:42-52 | definition (no contract): the scan of `C3:C<lastRow>` keeping the last row whose cell is truthy and non-blank, starting from 3 |
| ReportSpec.ReplaceBooleanStep | DailyReport.js:78-91 | definition (no contract): the boolean rewrite of rows 1..lastValidRow × columns 1..getLastColumn() |
| ReportSpec.ClearStep | DailyReport.js:93-105 | definition (no contract): F:G emptied on each row 3..lastValidRow whose D or E holds `○` |
| ReportSpec.NumberStep | DailyReport.js:107-114 | definition (no contract): A3..A<lastValidRow> set to 1, 2, 3, … |
| ReportSpec.MergedText | DailyReport.js:127-135 | definition (no contract): `[...new Set(texts)].join('、')` of the non-blank strings of a row's H..O |
| ReportSpec.CombineStep | DailyReport.js:116-145 | definition (no contract): the merged text written to H of rows 3..getLastRow(), then the original I..O dropped |
| ReportSpec.HeaderStep | DailyReport.js:61-76 | definition (no contract): the eight labels pasted at B2:I2 |
| Summary.Labels | DailyReport.js:186-215 | definition (no contract): the seven item labels in order, the fifth one blank |
| Summary.A1Column | DailyReport.js:201 | definition (no contract): the A1 text `<letter><row>:<letter><row + numRows − 1>` of a one-column range, as `getA1Notation()` gives it |
| Summary.LineOf | DailyReport.js:219-234 | definition (no contract): one item's writes: label in F, formula in H if non-empty, `人` in I if the label is non-empty |
| Summary.SummaryStep | DailyReport.js:178-235 | definition (no contract): `addSummary`: the C-column check, then the block's writes from row lastValidRow + 2 |
| Text.Join | DailyReport.js:135 | definition (no contract): `parts.join(sep)` for a one-character separator |
| Cells.Trim | DailyReport.js:49 | definition (no contract): `trim()`, whitespace removed at both ends |
| Cells.Truthy | DailyReport.js:49 | definition (no contract): JavaScript truthiness of a cell value: `false`, `0`, `''` and an empty cell are falsy |
| Cells.IsKeyCell | DailyReport.js:49 | definition (no contract): the name-cell test, truthy and not blank after `toString().trim()` |
| Cells.HasContent | DailyReport.js:44 | definition (no contract): a used cell in the sense of `getLastRow()`/`getLastColumn()`: not empty and not `''` |
| Cells.IsMergeText | DailyReport.js:127-129 | definition (no contract): the filter's test, a string not blank after `trim()` |
| Columns.LetterIndex | DailyReport.js:8 | definition (no contract): `letter.charCodeAt(0) - 'A'.charCodeAt(0) + 1` |
| Grids.Keep | DailyReport.js:12-20 | definition (no contract): the reference meaning of the deletions, the row with the cells of the named original columns left out |
| ReportSpec.KeyColumnReadable | DailyReport.js:44-45 | definition (no contract): `getRange('C3:C' + lastRow)` names a range of the sheet: column C exists, `getLastRow()` is at least 1, and the sheet has a row 3; otherwise `getValidDataRange` throws |
| ReportSpec.Qualifies | DailyReport.js:101 | definition (no contract): the row's D or E cell holds `○` |
| ReportSpec.ReplaceBooleanSucceeds | DailyReport.js:79-80 | definition (no contract): `replaceBoolean` does not throw: column C is readable and rows 1..lastValidRow × columns 1..getLastColumn() lie in the sheet |
| ReportSpec.ClearSucceeds | DailyReport.js:94-104 | definition (no contract): `clearBasedOnCondition` does not throw: column C is readable, `D3:D<lvr>` and `E3:E<lvr>` lie in the sheet, and F:G lie in the sheet unless no row is marked |
| ReportSpec.NumberSucceeds | DailyReport.js:108-112 | definition (no contract): `addSequenceNumbers` does not throw: column C is readable and A3..A<lastValidRow> lie in the sheet |
| ReportSpec.CombineSucceeds | DailyReport.js:121-144 | definition (no contract): `formatAndCombineText` does not throw: the sheet has column O, which `deleteColumn(15)` needs |
| ReportSpec.HeaderSucceeds | DailyReport.js:75 | definition (no contract): `insertHeaders` does not throw: B2:I2 lie in the sheet |
| Pipeline.ColumnWidthsFit | DailyReport.js:147-157 | definition (no contract): `setColumnWidthsAndMerge` does not throw: column C is readable and H2:I<lastValidRow> lie in the sheet |
| Pipeline.BordersFit | DailyReport.js:159-165 | definition (no contract): `setBorders` does not throw: column C is readable and A2:I<lastValidRow> lie in the sheet |
| Pipeline.LayoutSteps | DailyReport.js:28-32 | definition (no contract): the steps from `formatAndCombineText` to `addSummary` in order, stopping at the first that fails |
| ReportSpec.PruneOrder | DailyReport.js:7-12 | definition (no contract): the letters' column numbers sorted from the highest down |
| ReportSpec.MergeDeleteOrder | DailyReport.js:142-144 | definition (no contract): the columns 15, 14, …, 9 in the order the loop deletes them |
| ReportSpec.DropMergedColumns | DailyReport.js:142-144 | definition (no contract): a row without its original columns I..O (A..H, then what followed O), or the row unchanged when it has no column O |
| Summary.SummaryWrites | DailyReport.js:218-235 | definition (no contract): the writes of the seven items in order |
| Summary.SummaryCell | DailyReport.js:182-234 | definition (no contract): the declared layout: item `k` on row lastValidRow + 2 + k, with its label in F, its formula in H if non-empty and `人` in I if the label is non-empty; nothing elsewhere |

## Left out

- `SpreadsheetApp.flush`, `Utilities.sleep` and `Logger.log` have no effect on cell values.
- The exception and its message are not modelled. A thrown error is `ok == false`, and the run stops at it. No step is rolled back, as in the script.
- A per-column error in the first deletions is swallowed by the script. The model treats it as a skipped deletion.
- The summary formulas are not evaluated. `COUNTIFS`/`COUNTIF` with time comparisons are the host's formula engine, so a formula is held as its text.
- The active sheet lookup is not modelled. The sheet is passed to each method.
- The bottom border under the total line is not modelled. Its range F..I of the total row lies inside what the summary writes have already reached, so it cannot be refused after them.
- DailyReport.SetColumnWidthsAndMerge: only the range check is modelled. The column widths and the wrap flag do not change any cell value.
- DailyReport.SetBorders: only the range check is modelled. Border styles do not change any cell value.
- Sheets.Sheet.DeleteColumn: the host's refusal to delete a sheet's last remaining column is not modelled. The script only deletes columns 7 and up.
- DailyReport.ReplaceBoolean: input cells that hold formulas are modelled by their values only. The script reads rows 1..lastValidRow × every used column with `getValues()` and writes the block back with `setValues()`. That turns every formula in the block, the title and header rows included, into its current value. The model's cells carry no formula, so it does not show this loss.
- Sheets.Sheet.SetValue: the host's parsing of written strings is not modelled, and neither is the same parsing in `Sheets.Sheet.SetValues`. The host turns a string starting with `=` into a formula, and with automatic formatting a text that reads as a number or a date becomes one. The model assumes that the merged text written to H (DailyReport.js:138) and the text cells that `replaceBoolean` writes back (DailyReport.js:90) stay text.
- Dates and times are read as numbers (serial days). A `Date` object is always truthy, but `Num(0)` is not. This differs only for a name cell holding the zero date.

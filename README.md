# Process-record reconciliation, modelled in Dafny

The repository holds two desktop tools. Each compares two spreadsheets of
manufacturing process records. A record has a project (项目号), a car/segment
(节车号), a process code (工序编码), a process name (工序名称), a workstation
(工位) and a duration (工序工时). This project models each tool's comparison
algorithm and proves what it reports.

- **excel_compare.py** (the process-list comparison). It checks that both
  tables have the six required columns. It groups records by
  `project_car/segment` and walks the union of both tables' group keys.
  - A group absent from the compare table reports each of its base records
    as 缺少 (group missing).
  - Otherwise, each base record whose process code is absent from the compare
    group is reported as 缺少工序 (process missing).
  - For each process code in both groups, the first base row and the first
    compare row are compared. Differing durations give one 工时变化 (duration
    changed) row.
  - A counter tallies the two missing kinds.
- **time_compare.py** (the duration comparison against an EAS export). It
  checks the columns and matches records by `project_car/segment_code`. For
  every key in both tables, it reads the first rows' durations with `float()`.
  When they differ, it appends a difference: both durations, the delta
  `compare − EAS` rounded to two decimals, and a red/green colour for the
  delta cell. It counts the common keys and the changed records.

Both tools iterate over Python sets, and set order is not fixed. So each
tool's report is specified as a multiset. The reference is a function that
classifies every base row, for example `ExcelCompare.Expected` and
`TimeCompare.Expected`. Each base row yields at most one report row. The
class methods carry the tools' state: the result-table rows, the missing
count, and the `differences` list with its table rows. Their loops are proved
to end with exactly the reference rows, up to order.

Files:
- `collect.dfy`: flattening and restricting per-row classifications.
- `durations.dfy`: cells, `float()` on a cell, `round(x, 2)`.
- `records.dfy`: records, tables, required columns, the two keys.
- `excel_compare.dfy`: the process-list comparison.
- `time_compare.dfy`: the duration comparison.

## Model

| member | source | states |
|---|---|---|
| ExcelCompare.MissingColumns | excel_compare.py:117 | A column is listed exactly when it is required and not in the header, and the list keeps the order of the required columns |
| ExcelCompare.ValidateDataframe | excel_compare.py:116-119 | Fails exactly when some required column is absent; the error names the table and lists every missing column in required order (none other) |
| ExcelCompare.GroupOf | excel_compare.py:153-154 | The selected rows are exactly the table's rows with that group key |
| ExcelCompare.FirstIn | excel_compare.py:193-194 | The first row of the group with that process code (`.iloc[0]`): it matches, no earlier row matches, and none is found only when no row matches |
| ExcelCompare.ValuesDetermineRow | excel_compare.py:158-207 | Two rows showing the same eight table values are the same row: the three change labels differ and every field is shown |
| ExcelCompare.Classify | excel_compare.py:152-207 | The row a base row yields carries its identity fields and its duration. It is 缺少 exactly when the compare table lacks the row's group, and 缺少工序 exactly when the group is there but lacks the row's code; both show "-". A 工时变化 row comes only from the first base row of its group and code, and its two durations differ |
| ExcelCompare.Expected | excel_compare.py:152-207 | The reference report has at most one row per base row; each missing row shows "-" and each 工时变化 row two different durations |
| ExcelCompare.CountMissing | excel_compare.py:168-188 | The number of missing-kind rows is at most the number of rows; it is zero exactly when every row is a 工时变化 row, and all of them exactly when none is |
| ExcelCompare.MissingGroupReported | excel_compare.py:156-168 | A 缺少 row occurs once per base row of a group absent from the compare table, and it carries that row's fields, its duration and "-" |
| ExcelCompare.MissingProcessReported | excel_compare.py:171-188 | A 缺少工序 row occurs once per base row of a group both tables have whose code the compare group lacks; duplicates each count |
| ExcelCompare.ChangedComesFromFirstRows | excel_compare.py:191-207 | Only the first base row of a group and code can yield a 工时变化 row, paired with the first compare row of that group and code, and their durations differ |
| ExcelCompare.ChangedSource | excel_compare.py:191-207 | A reported 工时变化 row is the pair row of the first base and first compare rows of its group and code, whose durations differ |
| ExcelCompare.ChangedIff | excel_compare.py:191-207 | For a code in both groups, a 工时变化 row for that group and code is reported if and only if the first rows' durations differ, and it is their row |
| ExcelCompare.ChangedAtMostOnce | excel_compare.py:191-207 | Two 工时变化 rows with the same group and code are equal, and such a row occurs exactly once |
| ExcelCompare.RowsComeFromBase | excel_compare.py:156-207 | Every reported row carries the identity fields and the duration of some base row |
| ExcelCompare.RowInBaseGroup | excel_compare.py:147-154 | A reported row's group key and process code occur in the base table |
| ExcelCompare.CompareOnlyNeverReported | excel_compare.py:147-191 | Groups only in the compare table, and codes only in a compare group, produce no row |
| ExcelCompare.MissingCountOfExpected | excel_compare.py:128-188 | The number of missing-kind rows in the report equals the number of base rows missing their group or their code; 工时变化 rows are not counted |
| ExcelCompare.ClassifyMissing | excel_compare.py:156-188 | A base row yields a missing-kind row if and only if its group or its code is absent from the compare table |
| ExcelCompare.ScenarioMissingGroup | excel_compare.py:156-168 | A base record whose car/segment the compare table lacks gives exactly one 缺少 row with "-" |
| ExcelCompare.ScenarioMissingProcess | excel_compare.py:171-207 | A base group with OP1 and OP2 and a compare group with OP1 at the same duration give exactly one 缺少工序 row, for OP2 |
| ExcelCompare.MissingGroupClassified | excel_compare.py:156-169 | When the compare table lacks the group, each base row of the group yields its 缺少 row |
| ExcelCompare.MissingProcessClassified | excel_compare.py:171-188 | When the compare group lacks a code, each base row of the group with that code yields its 缺少工序 row |
| ExcelCompare.ChangedClassified | excel_compare.py:190-207 | For each common code, the first base row yields the pair row when their durations differ and nothing otherwise, and the group's other base rows with that code yield nothing |
| ExcelCompare.GroupCovered | excel_compare.py:170-207 | In a group present on both sides, each base row is a missing-process row, a changed row, or yields nothing |
| ExcelCompare.ExcelCompareTool.constructor | excel_compare.py:13-19 | Starts with no rows, a zero missing count and no result list |
| ExcelCompare.ExcelCompareTool.Report | excel_compare.py:168-169 | Appends the row to the result table and adds one to the missing count for a missing kind, keeping rows and count in step with the classification |
| ExcelCompare.ExcelCompareTool.ReportMissingGroup | excel_compare.py:156-169 | Reports every base row of the group, each as its 缺少 row, and the count goes up by one per row |
| ExcelCompare.ExcelCompareTool.ReportMissingProcesses | excel_compare.py:171-188 | Reports every base row of the group whose code is missing, each as its 缺少工序 row |
| ExcelCompare.ExcelCompareTool.ReportChangedDurations | excel_compare.py:190-207 | Over the common codes in any order, reports exactly the first base rows whose duration differs from the first compare row's |
| ExcelCompare.ExcelCompareTool.CompareGroup | excel_compare.py:152-207 | After one group key, every base row of that group is reported exactly when the classification gives it a row |
| ExcelCompare.ExcelCompareTool.CompareAll | excel_compare.py:146-207 | Over every group key in any order, the result table holds exactly the reference rows as a multiset, and the missing count equals both the missing rows shown and the missing base rows |
| ExcelCompare.ExcelCompareTool.Finish | excel_compare.py:146-207 | Once every group key is done, the rows are the reference report and the count is the missing base rows |
| ExcelCompare.ExcelCompareTool.CompareFiles | excel_compare.py:121-207 | Without both files nothing changes. Otherwise the count and table are reset first; a schema error on the base and then the compare table is returned and leaves the table empty; on success the table holds the reference rows up to order, the count matches, and the result list is empty |
| Records.KeysDependOnIdentity | excel_compare.py:143-144 | By construction, equal project and car/segment give equal group keys, and equal project, car/segment and code give equal record keys |
| Records.GroupKeyLayout | excel_compare.py:143-144 | The group key (`GroupKey`) is the project, one underscore, then the car/segment: its length is their lengths plus one, and each part sits at its place |
| Records.RecordKeyExtendsGroupKey | time_compare.py:133-138 | The record key (`RecordKey`) is the group key, an underscore and the process code: its length is theirs plus one, its prefix is the group key, then '_', then the code |
| ExcelCompare.RowGroupKeyIsGroupKey | excel_compare.py:143-144 | A result row's group key is the group key of a record with the same project and car/segment |
| TimeCompare.DiffKeyIsRecordKey | time_compare.py:133-138 | A difference's key is the record key of a record with the same project, car/segment and code |
| Records.KeysCollide | time_compare.py:133-138 | Underscores inside fields make different identities share a key, so neither key is injective |
| Durations.ToFloat | time_compare.py:152-153 | A numeric cell reads as its value; a text cell reads exactly when the text is a numeral in the sense of `ParseReal` |
| Durations.ParseReal | time_compare.py:152-153 | The model's subset of `float()` on text: text reads exactly when it is an optional `-` or `+`, then digits with at most one `.` and at least one digit |
| Durations.UnsignedAccepts | time_compare.py:152-153 | In the model's subset, unsigned text reads exactly when it is digits with at most one `.` and at least one digit |
| Durations.ParseWhole | time_compare.py:152-153 | A string of digits reads as its decimal value |
| Durations.ParseDecimal | time_compare.py:152-153 | Digits, a point and digits (either side possibly empty, not both) read as the whole part plus the fraction |
| Durations.SignedNumeral | time_compare.py:152-153 | A leading `-` negates the value of an unsigned numeral, and a leading `+` keeps it |
| Durations.RefusedText | time_compare.py:152-153 | `1.2.3`, `-` and the empty text are refused, as `float()` refuses them; `1e3` and ` 5` are refused too, although `float()` reads them |
| Durations.ParseShow | time_compare.py:152-153 | The numeral of a natural number reads back as that number |
| Durations.TrailingZerosIgnored | time_compare.py:152-153 | Trailing zeros after the point do not change the value read |
| Durations.Round2 | time_compare.py:167 | The rounded value is a whole number of hundredths within half a hundredth of the input |
| Durations.Round2Exact | time_compare.py:167 | A value that already has at most two decimals is unchanged |
| Durations.Round2KeepsSign | time_compare.py:167 | Rounding never makes a non-negative value negative or a non-positive value positive |
| TimeCompare.FirstMissingColumn | time_compare.py:120-123 | Nothing is returned exactly when both headers have every required column; otherwise the first required column either header lacks |
| TimeCompare.CheckColumns | time_compare.py:120-123 | The loop over the required columns returns the first column missing from either header, or nothing |
| TimeCompare.MakeDifference | time_compare.py:157-168 | The difference's delta is within half a hundredth of compare − EAS, a whole number of hundredths, non-negative when compare ≥ EAS and non-positive when compare ≤ EAS |
| TimeCompare.FirstKey | time_compare.py:149-150 | The first row with the key (`.iloc[0]`): it has the key and no earlier row does |
| TimeCompare.FirstKeyOfMember | time_compare.py:141-150 | Every key of a table has a first row there |
| TimeCompare.Evaluate | time_compare.py:152-169 | A difference results exactly when both durations read and differ, with delta compare − EAS rounded; a refusal names the EAS cell when that fails, else the compare cell |
| TimeCompare.Evaluated | time_compare.py:141-153 | Only the first EAS row of a key both tables have is evaluated, against the first compare row |
| TimeCompare.KeyStep | time_compare.py:148-168 | Only the first EAS row of a key the compare table also has contributes; a difference it yields carries that row's identity fields and its duration as read, and the two durations differ |
| TimeCompare.Expected | time_compare.py:148-168 | The reference differences number at most the EAS rows; each has two different durations and the delta compare − EAS rounded to two decimals |
| TimeCompare.DifferenceSource | time_compare.py:148-169 | A reported difference comes from the first EAS and first compare rows of a common key, carries the EAS identity fields and both values read, and the values differ |
| TimeCompare.DifferenceIff | time_compare.py:148-169 | For a common key whose first durations both read, a difference for the key is reported if and only if they differ, and it is that pair's difference |
| TimeCompare.OneDifferencePerKey | time_compare.py:148-169 | Two differences with the same key are equal, and such a difference occurs exactly once |
| TimeCompare.DifferencesBounded | time_compare.py:141-156 | There are never more differences than common keys |
| TimeCompare.OneSidedKeysNeverReported | time_compare.py:141 | A reported key is present in both tables |
| TimeCompare.DeltaIsRoundedDifference | time_compare.py:157-167 | The delta is compare − EAS rounded to two decimals: within half a hundredth, whole hundredths, and never of the opposite sign |
| TimeCompare.Tag | time_compare.py:180 | Red exactly when the compare duration exceeds the EAS one, else green; when the delta is the rounded compare − EAS, a positive delta is red, a negative one green, and red never shows a negative delta |
| TimeCompare.RedWithZeroDelta | time_compare.py:167-180 | An increase below half a hundredth is red while its delta shows 0.0 |
| TimeCompare.ScenarioIncrease | time_compare.py:148-180 | EAS 5 against compare 7 gives one red difference with delta 2.0 |
| TimeCompare.TextTenReads | time_compare.py:152-153 | The text "10.00" reads as 10 |
| TimeCompare.ScenarioTextDuration | time_compare.py:148-155 | Text "10.00" against the number 10 gives no difference and no conversion failure |
| TimeCompare.ExcelCompareTool.constructor | time_compare.py:7-23 | Starts with no differences and an empty table |
| TimeCompare.ExcelCompareTool.Append | time_compare.py:169-181 | Appends the difference and its table row with the delta colour |
| TimeCompare.ExcelCompareTool.CompareKey | time_compare.py:148-181 | One common key: a refused duration is returned with nothing changed; otherwise the key's first EAS row is accounted for, with one difference more exactly when the durations differ |
| TimeCompare.ExcelCompareTool.CompareRecords | time_compare.py:140-181 | Over the common keys in any order: completes exactly when no evaluated duration is refused. It then has the reference differences as a multiset, total = the number of common keys and changed = the number of differences; on a refusal it keeps part of the reference differences and names a refused cell; the table always shows the differences with their colours |
| TimeCompare.ExcelCompareTool.Finish | time_compare.py:148-181 | Once every common key is done, the differences are the reference ones and no evaluated duration was refused |
| TimeCompare.ExcelCompareTool.CompareFiles | time_compare.py:109-181 | Without both files nothing changes; a missing column is reported and nothing changes; otherwise the result is cleared and the comparison runs as CompareRecords states |

## Left out

- The windows are not modelled: tkinter widgets, message boxes, the statistics label, `update_stats_display` and `set_cell_color`. The table rows' contents are modelled; their display is not.
- File access is not modelled: file dialogs, `pd.read_excel` and `export_results`. The tables arrive as parameters (`None` when no file was chosen). A read failure and any other exception caught by the `except` clauses are not modelled.
- `unqualify/unqualify.js` is not part of this model. It fills form controls through a platform API that is not available here.
- Durations are exact reals, not binary floating point. `round(x, 2)` is round-half-even on the exact value.
- `Durations.ToFloat`: `float()` on text is modelled for `[sign] digits [. digits]` only (`ParseReal`). Exponents, `inf`/`nan`, surrounding whitespace and underscores are read as refusals.
- `Durations.ParseReal`: refuses text that `float()` reads. `float("1e3")` is 1000.0, `float(" 5")` is 5.0, and `inf`, `nan` and `1_0` are read too; the model refuses all of them. A stray blank in a duration cell thus ends the model's run where the source goes on.
- `Durations.UnsignedAccepts`: characterises the model's unsigned subset only, not every unsigned text `float()` reads (exponents, `inf`, `nan`, underscores).
- `Durations.RefusedText`: `1e3` and ` 5` are refused by the model only. `float()` reads them as 1000.0 and 5.0.
- Empty cells are not modelled. pandas reads an empty cell as NaN, and NaN differs from everything, itself included. A `Cell` cannot hold NaN. The source reports an empty duration only where it compares durations:
  - in excel_compare.py, in the first base row or the first compare row of a group and code both sides have (:193-196). That row then gives a 工时变化 row. An empty duration in any other row shows only inside a missing row, or not at all;
  - in time_compare.py, in the first EAS row or the first compare row of a common key (:148-155). That key then gives a difference with a NaN delta. Empty durations in later rows with the same key are never read.
- Key fields are taken as already-canonical strings. The `astype(str)` conversion of pandas' native values (and of empty cells) is not modelled. excel_compare.py converts only the group key (:143-144). Its process-code sets (:171-172) and code masks (:192-194) compare the native values. So a code stored as the number 101 in one workbook and as the text "101" in the other is reported as 缺少工序 there, while time_compare.py builds string keys (:133-138) and matches the two. The model's string codes cannot show this. In excel_compare.py a duration cell is compared as it is (number or text), as pandas `!=` does. Two numbers compare by value, and a number never equals a text.
- `ExcelCompare.ExcelCompareTool.CompareFiles`: the rows are stated as a multiset, not in order, because the source walks Python sets whose order is not fixed.
- `TimeCompare.ExcelCompareTool.CompareFiles`: the differences are stated as a multiset for the same reason. After a refused duration, the model states only that the differences are part of the reference ones. Which keys were done first depends on set order.
- `TimeCompare.ExcelCompareTool.constructor`: the source creates `differences` only in the first comparison (`export_results` tests `hasattr`). The model starts with an empty list, which `export_results` treats the same way.
- `comparison_result` in excel_compare.py is set to an empty list after validation and never filled. The model keeps it as `Some([])`. Export reads the result table instead.

Behaviour of the code that is easy to misread, as the model states it:
- excel_compare.py resets the missing count and clears the table before validating. A schema error leaves an empty table, not the previous one.
- time_compare.py checks the columns before clearing. A missing column leaves the previous result on screen, and only the first missing column is named.
- A duration that `float()` refuses in time_compare.py ends the run after some differences have been appended. The partial result stays (`CompareRecords`).
- The red/green colour is decided on the unrounded difference, so an increase below 0.005 shows 0.0 in red (`RedWithZeroDelta`).
- The missing count of excel_compare.py counts only the two missing kinds. There is no count of changed durations.

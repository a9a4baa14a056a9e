# AutoExcel core in Dafny

AutoExcel turns a raw Excel export of contract-negotiation cases into a processed workbook. It
also reads tables back out of analysis worksheets. This project models the two parts of it that
hold logic of their own. Every operation is stated, and properties are proved about it.

- **The disjoint-table extractor** (`extract_disjoint_tables` in `autoexcel/analysis.py`). A
  worksheet is a rectangular grid of optional values. Each merged range is expanded with the
  value of its top-left cell. The occupied cells are scanned in row-major order. At every
  occupied cell not yet visited, a breadth-first flood fill (`find_table`) collects its
  4-connected component and marks it visited. The component's bounding box is sliced out. Its
  all-empty rows are dropped, then its all-empty columns. Finally `clean_header` and
  `clean_footer` run. The frame, the occupancy mask and the `visited` grid are `array2`s that
  the methods update in place. The fill is a `while` loop over a queue. The scan is two nested
  loops. The result is unique: any two decompositions of the same occupied cells into
  components agree component by component, so the list of tables is fixed by the grid alone
  (`DecompositionUnique`, `TablesUnique`).
- **The case pipeline** (`preprocess_data` in `autoexcel/main.py`, and the same steps as a
  module-level script in `autoexcel/test.py`):
  - each case is numbered '#';
  - cases are kept by assigned date and by negotiator;
  - four business-day metrics are added (`networkdays`, which is numpy's `busday_count` plus
    one);
  - the rows are sorted by time since assignment, largest first, and bucketed by
    `categorize_delinquency`;
  - the cases still open form the active list.

  Around the pipeline sit the October-start fiscal year (`get_current_fiscal_year`) and the
  worksheet names built from it.

Modules:

| module | file | contents |
|---|---|---|
| `Wrappers` | wrappers.dfy | `Option` |
| `Seqs` | seqs.dfy | subsequences, `Map`, `Filter`, `Dedup` (which models `drop_duplicates`) |
| `Grid` | grid.dfy | cells, 4-adjacency, paths and reachability, merged ranges and their expansion |
| `Tables` | tables.dfy | bounding box, slice, `dropna`, `clean_header`, `clean_footer` |
| `Analysis` | analysis.dfy | the imperative extractor: merge expansion, mask, `find_table`, the scan |
| `Calendar` | calendar.dfy | proleptic Gregorian day numbers, weekdays, `busday_count`, `networkdays`, the fiscal year |
| `Sheets` | sheets.dfy | `str(year)[-2:]` and the sheet names, and the renaming of copied template sheets |
| `Cases` | cases.dfy | the case and row records and each step of `preprocess_data` |
| `CaseScript` | case_script.dfy | the `test.py` script, which updates its frame column by column, and its sheet names |

Other modelling decisions:

- **Dates** are day numbers counted from 1970-01-01, the way numpy's `datetime64[D]` holds them.
  Monday is weekday 0.
- **Empty cells.** A missing cell (NaN, NaT or `None`) is `None`.
- **Today's date** is a parameter.
- **Where the code and its comments disagree, the model follows the code:**
  - `test.py:73` says "Keep only rows where 'Negotiator' is 'COE', 'NCE', or 'OGC'", but line 74
    removes those rows. The model removes them.
  - `head(4)` and `iloc[5:]` in `clean_header` (and `iloc[:-5]` with `tail(4)` in
    `clean_footer`) do not meet. The model keeps them as written, so row 4 and row n-5 are lost
    in tables of five rows or more. `CleanHeaderDropsRowFour` and
    `CleanFooterDropsRowNMinusFive` state this.
- **`networkdays`** adds 1 to `busday_count`. That 1 counts the end day even when it is a
  Saturday or a Sunday (`NetworkDaysInclusive`). When the end comes before the start, the
  result follows numpy's reversed count and can be zero or negative. That reversed count is
  minus the business days in [end + 1, begin + 1), as numpy 1.25 and later compute it; older
  numpy counted [end, begin) instead. `setup.py` pins no numpy version, and the model follows
  1.25 and later.

## Model

The script in `autoexcel/test.py` defines its own copies of `get_current_fiscal_year` (lines 53-61), `filter_assigned_date` (65-69), `networkdays` (79-82) and `categorize_delinquency` (109-119). Their text is the same as main.py's, so each is modelled once by the member cited against main.py.

| member | source | states |
|---|---|---|
| Grid.Expand | autoexcel/analysis.py:26-28 | Each cell of the expanded grid is the top-left value of the last merged range covering it, or its own value; the shape is unchanged |
| Grid.TopLeft | autoexcel/analysis.py:27 | The value a merged range spreads is the worksheet value at its top-left cell, and none when that cell lies outside the worksheet |
| Grid.ExpandedAtLastCover | autoexcel/analysis.py:26-28 | A cell takes the top-left value of the last range that covers it, because later ranges in the loop overwrite earlier ones |
| Grid.MergedCellTakesTopLeft | autoexcel/analysis.py:26-28 | With disjoint ranges, every cell of a range holds that range's top-left worksheet value, even when that value is empty |
| Grid.UnmergedCellUnchanged | autoexcel/analysis.py:26-28 | A cell outside every merged range keeps its worksheet value |
| Analysis.ExpandMergedCells | autoexcel/analysis.py:26-28 | The in-place loop over the ranges leaves every frame cell equal to its expanded value |
| Analysis.MergedFrame | autoexcel/analysis.py:20-28 | The frame built from the worksheet rows and then merge-expanded is exactly `Expand(sheet, merges)` |
| Analysis.OccupancyMask | autoexcel/analysis.py:30 | A mask cell is set exactly when the frame holds a value there |
| Grid.Neighbours | autoexcel/analysis.py:54-59 | The four pushed cells are exactly the edge neighbours of the popped cell |
| Analysis.FindTable | autoexcel/analysis.py:38-60 | The returned cells have no repetition, are all open at the call, and are exactly the cells reachable from the start through open cells. They begin with the start cell when it is open and are empty otherwise. Exactly those cells become visited and every other flag is unchanged |
| Analysis.BfsVisit | autoexcel/analysis.py:45-59 | Visiting a popped open cell and pushing its neighbours preserves the fill's invariant: found cells are reachable, every open neighbour of a found cell is found or queued |
| Analysis.BfsPop | autoexcel/analysis.py:45-49 | Popping a closed or already visited cell preserves the fill's invariant |
| Grid.DiagonalCellsNotConnected | autoexcel/analysis.py:54-59 | Any cell and any of its four diagonal neighbours, open with nothing else around them, are not connected: the fill moves only across edges |
| Grid.EdgeNeighboursConnected | autoexcel/analysis.py:54-59 | Two open cells sharing an edge are connected |
| Grid.ReachableSymmetric | autoexcel/analysis.py:54-59 | Connection is symmetric: the fill pushes every neighbour, so a path walked backwards is a path |
| Grid.ReachableAvoidsClosed | autoexcel/analysis.py:46-49 | Leaving out a closed set of visited cells does not change the component of an unvisited cell, so a fill over the unvisited cells finds a whole component |
| Analysis.ScanSkip | autoexcel/analysis.py:65 | Passing over an empty or visited cell keeps the scan invariant |
| Analysis.ScanFound | autoexcel/analysis.py:65-67 | A fill from an occupied unvisited cell adds one new component. It is disjoint from the earlier ones and starts after their first cells, and every occupied cell up to the scan position is then covered |
| Analysis.ScanNextRow | autoexcel/analysis.py:63-64 | Moving past the last column to the next row keeps the scan invariant |
| Analysis.ScanDone | autoexcel/analysis.py:63-78 | After the last row the components partition the occupied cells, each a 4-connected component, pairwise disjoint, in row-major order of their first cells |
| Analysis.NoComponentsIffEmpty | autoexcel/analysis.py:62-78 | A decomposition has no component exactly when no cell is occupied |
| Analysis.FirstIsLeader | autoexcel/analysis.py:62-67 | The first cell of every component found is occupied and comes first in row-major order among the cells connected to it |
| Analysis.LeaderIsFirst | autoexcel/analysis.py:62-67 | Every occupied cell that comes first among the cells connected to it starts one of the components |
| Analysis.RowMajorSortedUnique | autoexcel/analysis.py:62-63 | Two lists of cells strictly increasing in row-major order that list the same cells are equal |
| Analysis.DecompositionUnique | autoexcel/analysis.py:62-67 | Any two component decompositions of the same occupied cells have the same number of components, and the k-th components start at the same cell and hold the same cells: the scan's result is unique |
| Analysis.TablesUnique | autoexcel/analysis.py:62-77 | Any two results the extraction contract admits for the same merged grid are the same list of tables |
| Analysis.NewTable | autoexcel/analysis.py:66-77 | The fill's cells become the next component and visited; the table is the one materialised from them |
| Analysis.VisitCell | autoexcel/analysis.py:64-77 | One scan step keeps the scan invariant and the list of tables in step with the components |
| Analysis.ScanRow | autoexcel/analysis.py:64-77 | A row of scan steps moves the invariant from the row's start to the next row's start |
| Analysis.ScanForTables | autoexcel/analysis.py:62-78 | The components found are a decomposition of the occupied cells and the tables are those made from them, in order |
| Analysis.ExtractDisjointTables | autoexcel/analysis.py:17-78 | The tables are those of the components of the merged grid's occupied cells, one per component, in row-major order of first cells; there is no table exactly when no cell is occupied |
| Analysis.TablesOfSnoc | autoexcel/analysis.py:77 | Appending a component and its table keeps the tables in step with the components |
| Tables.BoundingBox | autoexcel/analysis.py:69-71 | The box holds every cell of the component and each edge is touched by a cell |
| Tables.BoundingBoxOfSameCells | autoexcel/analysis.py:69-71 | The bounding box depends only on which cells a component holds, not on their order or repetitions |
| Tables.MaterializeTableOfSameCells | autoexcel/analysis.py:69-76 | Two listings of the same cells give the same table |
| Tables.Slice | autoexcel/analysis.py:71 | The slice has the box's shape and each of its cells is the grid cell at the same offset, whichever component it belongs to |
| Tables.SliceCell | autoexcel/analysis.py:71 | Grid cell (row, col) is cell (row - top, col - left) of the slice |
| Tables.DropEmptyRows | autoexcel/analysis.py:73 | The kept rows are an in-order subsequence, each with a value, and every row with a value is kept with all its copies (as a multiset, exactly the rows with a value) |
| Tables.KeptColumns | autoexcel/analysis.py:73 | The kept column indices are increasing, each column holds a value, and every column with a value is kept |
| Tables.DropEmptyColumns | autoexcel/analysis.py:73 | Every row is restricted to the kept columns, in order |
| Tables.DropEmpty | autoexcel/analysis.py:73 | The table keeps its shape and does not grow in either direction, and it ends with no rows exactly when no row held a value |
| Tables.DropEmptyLeavesNoEmptyLine | autoexcel/analysis.py:73 | After empty rows and then empty columns are dropped, no row and no column is entirely empty |
| Tables.KeptColumnsKeepRowValues | autoexcel/analysis.py:73 | Dropping the empty columns leaves every row that held a value still holding one |
| Tables.KeptColumnsHoldValues | autoexcel/analysis.py:73 | Every column left after dropping the empty ones holds a value |
| Tables.DropEmptyKeepsValue | autoexcel/analysis.py:73 | A table with a value keeps at least one row and one column |
| Tables.CleanHeader | autoexcel/analysis.py:81-87 | The result is no longer than the table, non-empty for a non-empty table, and holds only rows of the table |
| Tables.CleanHeaderLong | autoexcel/analysis.py:81-87 | For 5 rows or more, rows 5.. end the result unchanged. The part in front is exactly `Dedup` of rows 0-3 (first occurrences in their order): duplicate-free, an in-order subsequence of rows 0-3, and holding each of them. The result is at least one row shorter |
| Tables.CleanHeaderShort | autoexcel/analysis.py:81-87 | With 4 rows or fewer the header step is plain de-duplication |
| Tables.CleanHeaderDropsRowFour | autoexcel/analysis.py:82-84 | Row 4 is lost even when rows 0-4 are distinct: the result is rows 0-3 then rows 5.. |
| Tables.CleanHeaderDropsRepeatedBanner | autoexcel/analysis.py:82-84 | A repeat of row 0 at row 2 disappears and the rest move up |
| Tables.CleanFooter | autoexcel/analysis.py:89-95 | The result is no longer than the table, non-empty for a non-empty table, and holds only rows of the table |
| Tables.CleanFooterLong | autoexcel/analysis.py:89-95 | For 5 rows or more, rows 0..n-6 stay in front unchanged. The part after them is exactly `Dedup` of the last four rows (first occurrences in their order): duplicate-free, an in-order subsequence of those rows, and holding each of them. The result is at least one row shorter |
| Tables.CleanFooterShort | autoexcel/analysis.py:89-95 | With 4 rows or fewer the footer step is de-duplication of the whole table |
| Tables.CleanFooterDropsRowNMinusFive | autoexcel/analysis.py:90-92 | Row n-5 is lost even when the last five rows are distinct |
| Seqs.Dedup | autoexcel/analysis.py:82 | `drop_duplicates`: the result is an in-order subsequence without repetitions that holds every row of the input (the order of first occurrence is `DedupInOrder`) |
| Seqs.DedupOfDistinct | autoexcel/analysis.py:82 | Rows already distinct pass through unchanged |
| Seqs.DedupIdempotent | autoexcel/analysis.py:82 | De-duplicating twice is de-duplicating once |
| Seqs.DedupKeepsFirst | autoexcel/analysis.py:82 | The first row of the input heads the result |
| Seqs.FirstIndex | autoexcel/analysis.py:82 | The position of the first occurrence of a row: it holds the row and no earlier position does |
| Seqs.DedupInOrder | autoexcel/analysis.py:82 | `keep='first'`: the result lists the rows in the order of their first occurrence in the input |
| Seqs.DedupUnique | autoexcel/analysis.py:82 | Any duplicate-free sequence holding every row of the input in first-occurrence order is `Dedup` of the input, so first-occurrence order determines the result |
| Tables.MaterializeTable | autoexcel/analysis.py:69-76 | Slice, drop empty lines, clean header and footer; the result is rectangular |
| Tables.MaterializedTableShape | autoexcel/analysis.py:69-76 | A component with an occupied cell gives a table with at least one row of positive width, none of them entirely empty |
| Tables.SingleCellTable | autoexcel/analysis.py:69-76 | A lone occupied cell comes back as the one-by-one table of its value |
| Cases.CategorizeDelinquency | autoexcel/main.py:117-127 | There is no bucket exactly when there is no value |
| Cases.DelinquencyThresholds | autoexcel/main.py:117-127 | '> 90 Days' iff days >= 90, '> 60 Days' iff 60-89, '> 30 Days' iff 30-59, '< 30 Days' iff below 30 |
| Cases.DelinquencyMonotone | autoexcel/main.py:117-127 | More days never give a milder bucket |
| Calendar.CurrentFiscalYear | autoexcel/main.py:96-104 | The fiscal year is its start year plus one and starts on 1 October of the year before; today is on or after the start; there is none only for January-September of year 1 |
| Calendar.FiscalYearSpansToday | autoexcel/main.py:96-104 | In day numbers, today lies in [start, next 1 October) |
| Calendar.FiscalYearUnique | autoexcel/main.py:96-104 | The fiscal year whose span holds today is the one returned |
| Calendar.DayNumberOrder | autoexcel/main.py:115 | Valid dates are numbered injectively in calendar order |
| Calendar.DayNumberInYear | autoexcel/main.py:115 | `toordinal() - 719163`: a valid date is numbered within the span of its own year |
| Calendar.EpochIsDayZero | autoexcel/main.py:115 | 1970-01-01 is day 0 and a Thursday, as numpy's `datetime64[D]` counts |
| Calendar.Weekday | autoexcel/main.py:115 | The weekday of a day is 0 (Monday) to 6 (Sunday) |
| Calendar.WeekdayShift | autoexcel/main.py:115 | Moving k days on moves the weekday k places on, modulo 7 |
| Calendar.DefaultWeekmask | autoexcel/main.py:115 | numpy's default weekmask: from a Monday, five business days, then Saturday and Sunday off |
| Calendar.BusdayCount | autoexcel/main.py:115 | The size of the set of business days in [begin, end); when end comes first, minus the size of the set in [end + 1, begin + 1) (numpy 1.25 and later) |
| Calendar.WeekdaysIn | autoexcel/main.py:115 | The count of Monday-to-Friday days in [a, b) is at least 0, at most b - a, and 0 for an empty range |
| Calendar.WeekdaysInCountsBusinessDays | autoexcel/main.py:115 | The recursive count equals the size of the set of Monday-to-Friday days in [a, b) |
| Calendar.WeekdaysInWeek | autoexcel/main.py:115 | Any seven consecutive days hold five business days |
| Calendar.NetworkDays | autoexcel/main.py:112-115 | None exactly when a date is missing. For start <= end it lies in 1..end-start+1. For end < start it lies in 1-(start-end)..1 |
| Calendar.NetworkDaysSameDay | autoexcel/main.py:112-115 | The same start and end day count 1 |
| Calendar.NetworkDaysInclusive | autoexcel/main.py:112-115 | For start <= end it is the business days in [start, end], plus one when the end day is a weekend day |
| Calendar.NetworkDaysWeeks | autoexcel/main.py:112-115 | k whole weeks from the start count 5k + 1 |
| Calendar.NetworkDaysReversed | autoexcel/main.py:112-115 | With the dates swapped the count mirrors around 1, corrected by what each end day contributes |
| Calendar.DefaultStartIsSaturday | autoexcel/test.py:20 | The script's start date 2023-07-01 is day 19539, a Saturday |
| Cases.Numbered | autoexcel/main.py:55-61 | Row i carries number i + 1, case i, and empty new columns |
| Cases.FilterAssignedDate | autoexcel/main.py:106-110 | An in-order subsequence. A row is kept iff its assigned date is present, at least the start, and before the end when one is given |
| Cases.ExcludeNegotiators | autoexcel/main.py:71 | An in-order subsequence: a row is kept iff its negotiator is not COE, NCE or OGC (a missing negotiator is kept) |
| Cases.WithMetrics | autoexcel/main.py:74-77 | Each row gets the three `networkdays` metrics and today's date, and nothing else changes |
| Cases.RowMetrics | autoexcel/main.py:74-77 | One row gets its three `networkdays` metrics and today's date; its '#', case and bucket are unchanged |
| Cases.SortBySinceAssignment | autoexcel/main.py:86 | The result is a permutation of the rows, non-increasing in time since assignment, with missing values last |
| Cases.Insert | autoexcel/main.py:86 | Inserting a row into rows sorted by time since assignment, largest first, keeps them sorted and adds exactly that row |
| Cases.WithDelinquency | autoexcel/main.py:87 | Each row's bucket is set from its time since assignment, and nothing else changes |
| Cases.ActiveAssignments | autoexcel/main.py:90-92 | An in-order subsequence: a row is kept iff its status is not Completed, Duplicate or Withdrawn |
| Cases.SelectionInOrder | autoexcel/main.py:55-71 | The filters keep rows in '#' order |
| Cases.SelectionRows | autoexcel/main.py:55-71 | Every row the filters keep is the numbered form of a kept case and keeps its original '#' |
| Cases.SelectionComplete | autoexcel/main.py:55-71 | Every kept case survives the filters |
| Cases.Selection | autoexcel/main.py:55-71 | The rows left by the date and negotiator filters are an in-order subsequence of the numbered rows, holding exactly the numbered rows of kept cases |
| Cases.MetricsStep | autoexcel/main.py:74-77 | After the metrics every row is still its case's and has that case's metrics; the '#' values stay distinct and complete |
| Cases.SortStep | autoexcel/main.py:86 | Sorting keeps every row, keeps the '#' values distinct and loses no kept case |
| Cases.DelinquencyStep | autoexcel/main.py:86-87 | After the bucket step the frame meets the full processed specification |
| Cases.ActiveStep | autoexcel/main.py:90-92 | The active list is an in-order subsequence of the processed rows holding exactly the open ones |
| Cases.PreprocessData | autoexcel/main.py:50-94 | The processed frame has one row per kept case and no other, each with its original '#', its metrics and its bucket, sorted by time since assignment, largest first. The active frame is its in-order subsequence of open rows |
| Cases.ProcessedRowsAreBucketed | autoexcel/main.py:74-87 | Every processed row has a time since assignment and a bucket |
| Cases.NothingKeptNothingProcessed | autoexcel/main.py:50-94 | The processed frame is empty exactly when no case is in the date window with a negotiator that is kept |
| CaseScript.UpdateColumn | autoexcel/test.py:85-94 | Assigning a column updates every row of the frame in place, by the row's own old value |
| CaseScript.FrameOf | autoexcel/test.py:71-74 | Rebinding `df` to a filtered or sorted frame yields a new frame holding exactly the given rows |
| CaseScript.RunScript | autoexcel/test.py:32-127 | The script computes exactly what `preprocess_data` computes for a 2023-07-01 start, no end and the same day |
| CaseScript.ScriptKeepsAssignmentsFromJuly2023 | autoexcel/test.py:20 | Every processed row of the script was assigned on or after 2023-07-01 |
| Sheets.NatToStringRoundTrip | autoexcel/main.py:39 | `str(n)` read back gives n |
| Sheets.NatToString | autoexcel/main.py:39 | `str(n)`: a non-empty string of decimal digits without a leading zero, one character exactly below 10, ending in the units and then tens digit of n |
| Sheets.LastTwo | autoexcel/main.py:39 | `s[-2:]`: the last two characters, or the whole string when it is shorter |
| Sheets.YearDigitsModulo | autoexcel/main.py:39 | Two years of two digits or more give the same `str(year)[-2:]` exactly when they agree modulo 100 |
| Sheets.YearDigits | autoexcel/main.py:39 | `str(year)[-2:]`: the tens and units digits from year 10 on, the one digit before |
| Sheets.SharePointSheetName | autoexcel/main.py:133 | From year 10 on, "FY " then the tens and units digits of the fiscal year, then " SharePoint" |
| Sheets.AnalyticsSheetName | autoexcel/main.py:39 | From year 10 on, "FY " then the last two digits of the fiscal year, "-", the last two digits of the next year, then " Analytics" |
| Sheets.SharePointSheetNameModulo | autoexcel/main.py:133 | Two fiscal years of two digits or more share a SharePoint sheet name exactly when they agree modulo 100 |
| Sheets.SheetNamesFor2025 | autoexcel/main.py:133 | In fiscal year 2025 the sheets are "FY 25 SharePoint" and "FY 25-26 Analytics" |
| Sheets.AnalyticsSheetNameWraps | autoexcel/main.py:39 | At a century's end the second part wraps: fiscal year 2099 gives "FY 99-00 Analytics" |
| Sheets.RenamedSheets | autoexcel/main.py:189-196 | Each copied sheet keeps its name unless the name contains "FY", in which case it takes the current analytics name |
| Sheets.ContainsFYIsSubstring | autoexcel/main.py:194 | `'FY' in name`: `ContainsFY` is true exactly when "F" is directly followed by "Y" somewhere in the name |
| Sheets.TemplateSheetsRenamedIn2025 | autoexcel/test.py:212-215 | In fiscal year 2025 the template's "FY 24-25 Analytics" becomes "FY 25-26 Analytics" |
| Sheets.MainTemplateSheetsKeepTheirNames | autoexcel/main.py:38-40 | The sheets `main` asks to copy already have the names the copy gives them |
| Sheets.TemplateSheetsRenamed | autoexcel/test.py:206-227 | The script's template sheets become the current analytics sheet and "Caseload Analysis" |
| CaseScript.SharePointSheetOn | autoexcel/test.py:141-143 | There is a SharePoint sheet name exactly when the fiscal year is defined, and it is the SharePoint name of the current fiscal year |
| CaseScript.TemplateSheetsOn | autoexcel/test.py:206-227 | There are template names exactly when the fiscal year is defined, and they are the current fiscal year's analytics name and "Caseload Analysis" |
| CaseScript.FiscalYearOf | autoexcel/test.py:53-61 | The fiscal year read from the date alone is the one `get_current_fiscal_year` returns |
| CaseScript.SheetsInFiscalYear | autoexcel/test.py:141-143 | For every fiscal year y from 2 on, from October of y - 1 to September of y the SharePoint sheet is that of y, and the template sheets of lines 206-227 become the analytics sheet of y and "Caseload Analysis" |
| CaseScript.SheetsInFiscalYear2025 | autoexcel/test.py:141-143 | From October 2024 to September 2025 the sheets are "FY 25 SharePoint", "FY 25-26 Analytics" and "Caseload Analysis" |

## Left out

- Workbook I/O: `load_workbook`, sheet selection and `iter_rows` (analysis.py:8-14, 21-22); `read_excel`, `ExcelWriter` and `to_excel`. The model takes the worksheet rows and merged ranges as inputs and returns the frames.
- The worksheet formatting in `write_output`, `format_worksheet` and the script's formatting loop (fills, fonts, auto-filter, row height). These only change styles.
- `copy_excel_worksheet`'s Excel COM automation: opening, copying, saving and closing workbooks, and the exception handler. Only the resulting sheet names are modelled (`RenamedSheets`).
- `copy_worksheet` (test.py:132-136) is defined but never called.
- Date parsing and formatting (`pd.to_datetime`, `strftime('%m/%d/%Y')`). Dates are day numbers; formatting runs after the metrics and does not change them.
- The clock (`datetime.today()`, `pd.to_datetime('today')`). Today's date is a parameter.
- The output file names and the `shutil`/`os` directory handling.
- pandas index values and `reset_index`. Tables and frames are sequences of rows.
- The columns the logic never reads travel as an opaque `rest` field of each case.
- `datetime`'s upper bound on years (9999) is not modelled. Its lower bound is modelled: `CurrentFiscalYear` returns `None` where `datetime(0, 10, 1)` would raise.
- SortBySinceAssignment: pandas' default sort is not stable, so its order among rows with equal time since assignment is unspecified. The model sorts by stable insertion, and its contract states only what holds for both: a permutation, sorted largest first, missing values last.
- numpy's weekmask and holiday arguments to `busday_count` are not modelled. Only the default Monday-to-Friday week without holidays is.
- `print` output, `main()` entry points and the example call at analysis.py:99-116.
- The files outside the core: `pivot_tables.py`, `analysis_summary.py`, `query_engine.py`, `llm_utils.py` and `setup.py`. These are COM automation, LLM client setup and packaging, and they are not part of this model.

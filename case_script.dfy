/**
 * The module-level script of autoexcel/test.py: the frame is built, rebound by the filters and
 * the sort, and updated one column at a time; then the worksheet names are derived from the
 * current fiscal year. Each column assignment `df[col] = ...` is an update of every row of
 * the frame in place.
 */
module CaseScript {
  import opened Wrappers
  import opened Seqs
  import opened Calendar
  import opened Cases
  import opened Sheets

  /** `df[col] = f(row)` for every row of the frame, in place. */
  method UpdateColumn<T>(frame: array<T>, f: T -> T)
    modifies frame
    ensures frame[..] == Map(old(frame[..]), f)
  {
    var i := 0;
    while i < frame.Length
      invariant 0 <= i <= frame.Length
      invariant forall j :: 0 <= j < i ==> frame[j] == f(old(frame[j]))
      invariant forall j :: i <= j < frame.Length ==> frame[j] == old(frame[j])
    {
      frame[i] := f(frame[i]);
      i := i + 1;
    }
  }

  /** A frame holding the given rows, as `DataFrame` rebinding produces. */
  method FrameOf<T>(rows: seq<T>) returns (frame: array<T>)
    ensures fresh(frame) && frame[..] == rows
  {
    frame := new T[|rows|](i requires 0 <= i < |rows| => rows[i]);
  }

  /**
   * test.py:32-127 on the raw cases and today's date: '#' and the empty new columns
   * (lines 38-45), the assigned-date filter from 2023-07-01 with no end (lines 20, 71), the
   * negotiator exclusion (line 74), the four metric columns one after the other (lines 85-94),
   * the sort (line 106), the delinquency column (line 121) and the active list (line 127).
   * It computes exactly what `preprocess_data` does with the same window.
   */
  method RunScript<E(==,!new)>(cases: seq<Case<E>>, today: Date) returns (processed: seq<Row<E>>, active: seq<Row<E>>)
    ensures (processed, active) == PreprocessData(cases, DefaultStart, None, today)
  {
    var numbered := FrameOf(Numbered(cases));

    var kept := ExcludeNegotiators(FilterAssignedDate(numbered[..], DefaultStart, None));
    var df := FrameOf(kept);
    UpdateColumn(df, (r: Row<E>) => r.(timeToAssignment := NetworkDays(r.record.receivedAtOsp, r.record.dateAssigned)));
    UpdateColumn(df, (r: Row<E>) => r.(timeToExecution := NetworkDays(r.record.dateAssigned, r.record.feDate)));
    UpdateColumn(df, (r: Row<E>) => r.(todaysDate := Some(today)));
    UpdateColumn(df, (r: Row<E>) => r.(timeSinceAssignment := NetworkDays(r.record.dateAssigned, r.todaysDate)));
    assert df[..] == WithMetrics(kept, today) by {
      forall j | 0 <= j < |kept|
        ensures df[j] == RowMetrics(kept[j], today)
      {
      }
    }

    var sorted := FrameOf(SortBySinceAssignment(df[..]));
    UpdateColumn(sorted, (r: Row<E>) => r.(delinquency := CategorizeDelinquency(r.timeSinceAssignment)));
    processed := sorted[..];
    active := ActiveAssignments(processed);
  }

  /** Every row the script keeps was assigned on or after 2023-07-01. */
  lemma ScriptKeepsAssignmentsFromJuly2023<E(!new)>(cases: seq<Case<E>>, today: Date)
    ensures var processed := PreprocessData(cases, DefaultStart, None, today).0;
      forall k :: 0 <= k < |processed| ==>
        processed[k].record.dateAssigned.Some? && processed[k].record.dateAssigned.value >= DayNumber(CalendarDate(2023, 7, 1))
  {
    var processed := PreprocessData(cases, DefaultStart, None, today).0;
    forall k | 0 <= k < |processed|
      ensures processed[k].record.dateAssigned.Some? && processed[k].record.dateAssigned.value >= DefaultStart
    {
      assert RowFor(cases, DefaultStart, None, today, processed[k]);
    }
  }

  // ----- worksheet names -----

  /**
   * The fiscal year `get_current_fiscal_year` gives for `today` (main.py:96-104), written out
   * from the date alone: October to December belong to the next year.
   */
  function FiscalYearOf(today: CalendarDate): (y: int)
    requires IsValid(today)
    ensures CurrentFiscalYear(today).Some? ==> CurrentFiscalYear(today).value.year == y
  {
    if today.month >= 10 then today.year + 1 else today.year
  }

  /**
   * `fy_sheet_name` (test.py:141-143, main.py:132-133) on a given day: the SharePoint name of
   * the current fiscal year; `None` where `get_current_fiscal_year` raises.
   */
  function SharePointSheetOn(today: CalendarDate): (name: Option<string>)
    requires IsValid(today)
    ensures name.None? <==> CurrentFiscalYear(today).None?
    ensures name.Some? ==> name.value == SharePointSheetName(FiscalYearOf(today))
  {
    match CurrentFiscalYear(today)
    case None => None
    case Some(fy) => Some(SharePointSheetName(fy.year))
  }

  /**
   * The names of the template sheets after `copy_excel_worksheet` (test.py:206-227) on a given
   * day: the current fiscal year's analytics sheet and "Caseload Analysis".
   */
  function TemplateSheetsOn(today: CalendarDate): (names: Option<seq<string>>)
    requires IsValid(today)
    ensures names.None? <==> CurrentFiscalYear(today).None?
    ensures names.Some? ==> names.value == [AnalyticsSheetName(FiscalYearOf(today)), "Caseload Analysis"]
  {
    match CurrentFiscalYear(today)
    case None => None
    case Some(fy) =>
      TemplateSheetsRenamed(fy.year);
      Some(RenamedSheets(["FY 24-25 Analytics", "Caseload Analysis"], fy.year))
  }

  /**
   * From October of year y - 1 to September of year y the sheets are those of fiscal year y,
   * for every year y from 2 on.
   */
  lemma SheetsInFiscalYear(today: CalendarDate, y: int)
    requires y >= 2 && IsValid(today)
    requires (today.year == y - 1 && today.month >= 10) || (today.year == y && today.month < 10)
    ensures SharePointSheetOn(today) == Some(SharePointSheetName(y))
    ensures TemplateSheetsOn(today) == Some([AnalyticsSheetName(y), "Caseload Analysis"])
  {
    assert FiscalYearOf(today) == y;
  }

  /** From October 2024 to September 2025 the sheets are those of fiscal year 2025. */
  lemma SheetsInFiscalYear2025(today: CalendarDate)
    requires IsValid(today)
    requires (today.year == 2024 && today.month >= 10) || (today.year == 2025 && today.month < 10)
    ensures SharePointSheetOn(today) == Some("FY 25 SharePoint")
    ensures TemplateSheetsOn(today) == Some(["FY 25-26 Analytics", "Caseload Analysis"])
  {
    SheetsInFiscalYear(today, 2025);
    SheetNamesFor2025(2025);
  }
}

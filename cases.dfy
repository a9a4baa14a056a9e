/**
 * The record-level logic of `preprocess_data` (autoexcel/main.py:50-94) and of the helpers it
 * calls: the case list is numbered, filtered by assigned date and by negotiator, given its
 * business-day metrics, sorted by time since assignment and bucketed by delinquency; the
 * active assignments are the rows whose status is still open.
 *
 * A case is one row of the raw workbook. Only the columns the logic reads are named; the
 * rest travel along unchanged as `rest`. A missing cell (NaN / NaT) is `None`.
 */
module Cases {
  import opened Wrappers
  import opened Seqs
  import opened Calendar

  datatype Case<E> = Case(
    dateAssigned: Option<Date>,    // 'Date Assigned'
    receivedAtOsp: Option<Date>,   // 'Date Received at OSP'
    feDate: Option<Date>,          // 'FE Date'
    negotiator: Option<string>,    // 'Negotiator'
    status: Option<string>,        // 'Status'
    rest: E)                       // every other column

  /** A processed row: '#', the case, and the five columns added at main.py:58-61. */
  datatype Row<E> = Row(
    number: int,                        // '#'
    record: Case<E>,
    timeToAssignment: Option<int>,      // 'Time to Assignment'
    timeToExecution: Option<int>,       // 'Time to Execution'
    todaysDate: Option<Date>,           // "Today's Date"
    timeSinceAssignment: Option<int>,   // 'Time Since Assignment'
    delinquency: Option<string>)        // 'Delinquency'

  // ----- categorize_delinquency -----

  const Over90: string := "> 90 Days"
  const Over60: string := "> 60 Days"
  const Over30: string := "> 30 Days"
  const Under30: string := "< 30 Days"

  /** `categorize_delinquency` (main.py:117-127): thresholds at 90, 60 and 30 business days. */
  function CategorizeDelinquency(days: Option<int>): (bucket: Option<string>)
    ensures bucket.None? <==> days.None?
  {
    if days.None? then None
    else if days.value >= 90 then Some(Over90)
    else if days.value >= 60 then Some(Over60)
    else if days.value >= 30 then Some(Over30)
    else Some(Under30)
  }

  /** Each label is given to exactly one range of days. */
  lemma DelinquencyThresholds(d: int)
    ensures CategorizeDelinquency(Some(d)) == Some(Over90) <==> d >= 90
    ensures CategorizeDelinquency(Some(d)) == Some(Over60) <==> 60 <= d < 90
    ensures CategorizeDelinquency(Some(d)) == Some(Over30) <==> 30 <= d < 60
    ensures CategorizeDelinquency(Some(d)) == Some(Under30) <==> d < 30
  {
    assert Over90 != Over60 && Over90 != Over30 && Over90 != Under30 by {
      assert Over90[2] != Over60[2] && Over90[2] != Over30[2] && Over90[0] != Under30[0];
    }
    assert Over60 != Over30 && Over60 != Under30 by {
      assert Over60[2] != Over30[2] && Over60[0] != Under30[0];
    }
    assert Over30 != Under30 by {
      assert Over30[0] != Under30[0];
    }
  }

  /** The severity of a label: 3 for over 90 days down to 0 for under 30, -1 for none. */
  function Severity(bucket: Option<string>): int {
    if bucket == Some(Over90) then 3
    else if bucket == Some(Over60) then 2
    else if bucket == Some(Over30) then 1
    else if bucket == Some(Under30) then 0
    else -1
  }

  /** More days never give a milder label. */
  lemma DelinquencyMonotone(a: int, b: int)
    requires a <= b
    ensures Severity(CategorizeDelinquency(Some(a))) <= Severity(CategorizeDelinquency(Some(b)))
  {
    DelinquencyThresholds(a);
    DelinquencyThresholds(b);
  }

  // ----- the steps of preprocess_data -----

  /** main.py:55 and 58-61: '#' numbers the cases 1..n, and the new columns start out empty. */
  function Numbered<E>(cases: seq<Case<E>>): (rows: seq<Row<E>>)
    ensures |rows| == |cases|
    ensures forall i :: 0 <= i < |cases| ==> rows[i] == Row(i + 1, cases[i], None, None, None, None, None)
  {
    seq(|cases|, i requires 0 <= i < |cases| => Row(i + 1, cases[i], None, None, None, None, None))
  }

  /**
   * The assigned-date window of `filter_assigned_date`: a missing date compares false, so it
   * never passes; the end bound applies only when one is given.
   */
  predicate InWindow(d: Option<Date>, start: Date, end: Option<Date>) {
    d.Some? && start <= d.value && (end.None? || d.value < end.value)
  }

  predicate AssignedFrom<E>(r: Row<E>, start: Date) {
    r.record.dateAssigned.Some? && r.record.dateAssigned.value >= start
  }

  predicate AssignedBefore<E>(r: Row<E>, end: Date) {
    r.record.dateAssigned.Some? && r.record.dateAssigned.value < end
  }

  /**
   * `filter_assigned_date` (main.py:106-110, test.py:65-69): rows assigned on or after `start`,
   * then, when an end is given, those assigned before it, in their order.
   */
  function FilterAssignedDate<E(!new)>(rows: seq<Row<E>>, start: Date, end: Option<Date>): (r: seq<Row<E>>)
    ensures IsSubseq(r, rows)
    ensures forall row :: row in r ==> row in rows && InWindow(row.record.dateAssigned, start, end)
    ensures forall row {:trigger row in r} :: row in rows && InWindow(row.record.dateAssigned, start, end) ==> row in r
  {
    var from := Filter(rows, (row: Row<E>) => AssignedFrom(row, start));
    if end.None? then from
    else
      var r := Filter(from, (row: Row<E>) => AssignedBefore(row, end.value));
      SubseqTransitive(r, from, rows);
      r
  }

  const ExcludedNegotiators: set<string> := {"COE", "NCE", "OGC"}

  predicate NegotiatorExcluded<E>(c: Case<E>) {
    c.negotiator.Some? && c.negotiator.value in ExcludedNegotiators
  }

  /** main.py:71 / test.py:74: drop the rows whose negotiator is COE, NCE or OGC; a missing one stays. */
  function ExcludeNegotiators<E(!new)>(rows: seq<Row<E>>): (r: seq<Row<E>>)
    ensures IsSubseq(r, rows)
    ensures forall row :: row in r ==> row in rows && !NegotiatorExcluded(row.record)
    ensures forall row {:trigger row in r} :: row in rows && !NegotiatorExcluded(row.record) ==> row in r
  {
    Filter(rows, (row: Row<E>) => !NegotiatorExcluded(row.record))
  }

  /** The metric columns of one row (main.py:74-77), with today's date already normalised to a day. */
  function RowMetrics<E>(r: Row<E>, today: Date): (m: Row<E>)
    ensures HasMetrics(m, today)
    ensures m.number == r.number && m.record == r.record && m.delinquency == r.delinquency
  {
    r.(timeToAssignment := NetworkDays(r.record.receivedAtOsp, r.record.dateAssigned),
       timeToExecution := NetworkDays(r.record.dateAssigned, r.record.feDate),
       todaysDate := Some(today),
       timeSinceAssignment := NetworkDays(r.record.dateAssigned, Some(today)))
  }

  function WithMetrics<E>(rows: seq<Row<E>>, today: Date): (r: seq<Row<E>>)
    ensures |r| == |rows| && forall k :: 0 <= k < |rows| ==> r[k] == RowMetrics(rows[k], today)
  {
    Map(rows, (row: Row<E>) => RowMetrics(row, today))
  }

  /**
   * The order of `sort_values(by='Time Since Assignment', ascending=False)`: larger values
   * first, missing values last.
   */
  predicate KeyAtLeast(a: Option<int>, b: Option<int>) {
    b.None? || (a.Some? && a.value >= b.value)
  }

  predicate SortedDescending<E>(rows: seq<Row<E>>) {
    forall i, j :: 0 <= i < j < |rows| ==> KeyAtLeast(rows[i].timeSinceAssignment, rows[j].timeSinceAssignment)
  }

  function Insert<E(==)>(x: Row<E>, s: seq<Row<E>>): (r: seq<Row<E>>)
    requires SortedDescending(s)
    ensures multiset(r) == multiset(s) + multiset{x}
    ensures SortedDescending(r)
  {
    if |s| == 0 then [x]
    else if KeyAtLeast(x.timeSinceAssignment, s[0].timeSinceAssignment) then [x] + s
    else
      var tail := Insert(x, s[1..]);
      assert s == [s[0]] + s[1..];
      InsertBehindHead(x, s, tail);
      [s[0]] + tail
  }

  /** A row that does not go first goes behind the head, which stays ahead of everything. */
  lemma InsertBehindHead<E>(x: Row<E>, s: seq<Row<E>>, tail: seq<Row<E>>)
    requires |s| > 0 && SortedDescending(s) && !KeyAtLeast(x.timeSinceAssignment, s[0].timeSinceAssignment)
    requires SortedDescending(tail) && multiset(tail) == multiset(s[1..]) + multiset{x}
    ensures SortedDescending([s[0]] + tail)
  {
    var r := [s[0]] + tail;
    forall i, j | 0 <= i < j < |r|
      ensures KeyAtLeast(r[i].timeSinceAssignment, r[j].timeSinceAssignment)
    {
      if i == 0 {
        assert r[j] == tail[j - 1] && r[j] in multiset(tail);
        if r[j] != x {
          assert r[j] in multiset(s[1..]);
          var m :| 0 <= m < |s| - 1 && s[1..][m] == r[j];
          assert s[m + 1] == r[j];
        }
      } else {
        assert r[i] == tail[i - 1] && r[j] == tail[j - 1];
      }
    }
  }

  /** Line 86 / test.py:106, as an insertion sort: sorted as the order above, a permutation of its input. */
  function SortBySinceAssignment<E(==)>(rows: seq<Row<E>>): (r: seq<Row<E>>)
    ensures multiset(r) == multiset(rows)
    ensures SortedDescending(r)
  {
    if |rows| == 0 then []
    else
      assert rows == [rows[0]] + rows[1..];
      Insert(rows[0], SortBySinceAssignment(rows[1..]))
  }

  /** main.py:87 / test.py:121: the delinquency bucket of each row's time since assignment. */
  function WithDelinquency<E>(rows: seq<Row<E>>): (r: seq<Row<E>>)
    ensures |r| == |rows|
    ensures forall k :: 0 <= k < |rows| ==>
      r[k] == rows[k].(delinquency := CategorizeDelinquency(rows[k].timeSinceAssignment))
  {
    Map(rows, (row: Row<E>) => row.(delinquency := CategorizeDelinquency(row.timeSinceAssignment)))
  }

  const ClosedStatuses: set<string> := {"Completed", "Duplicate", "Withdrawn"}

  predicate StatusClosed<E>(c: Case<E>) {
    c.status.Some? && c.status.value in ClosedStatuses
  }

  /** main.py:92 / test.py:127: the rows whose status is not Completed, Duplicate or Withdrawn. */
  function ActiveAssignments<E(!new)>(rows: seq<Row<E>>): (r: seq<Row<E>>)
    ensures IsSubseq(r, rows)
    ensures forall row :: row in r ==> row in rows && !StatusClosed(row.record)
    ensures forall row {:trigger row in r} :: row in rows && !StatusClosed(row.record) ==> row in r
  {
    Filter(rows, (row: Row<E>) => !StatusClosed(row.record))
  }

  // ----- what preprocess_data promises -----

  /** A case the filters keep. */
  predicate Kept<E>(c: Case<E>, start: Date, end: Option<Date>) {
    InWindow(c.dateAssigned, start, end) && !NegotiatorExcluded(c)
  }

  /** `r` carries the case its '#' names. */
  ghost predicate FromCase<E>(cases: seq<Case<E>>, r: Row<E>) {
    1 <= r.number <= |cases| && r.record == cases[r.number - 1]
  }

  /** The metric columns of `r` are those of main.py:74-77 for its own case. */
  predicate HasMetrics<E>(r: Row<E>, today: Date) {
    && r.timeToAssignment == NetworkDays(r.record.receivedAtOsp, r.record.dateAssigned)
    && r.timeToExecution == NetworkDays(r.record.dateAssigned, r.record.feDate)
    && r.todaysDate == Some(today)
    && r.timeSinceAssignment == NetworkDays(r.record.dateAssigned, Some(today))
  }

  /** `r` is the processed form of the case its '#' names. */
  ghost predicate RowFor<E>(cases: seq<Case<E>>, start: Date, end: Option<Date>, today: Date, r: Row<E>) {
    && FromCase(cases, r)
    && Kept(r.record, start, end)
    && HasMetrics(r, today)
    && r.delinquency == CategorizeDelinquency(r.timeSinceAssignment)
  }

  ghost predicate HasNumber<E>(rows: seq<Row<E>>, number: int) {
    exists k :: 0 <= k < |rows| && rows[k].number == number
  }

  /** Every kept case has a row. */
  ghost predicate Complete<E>(cases: seq<Case<E>>, start: Date, end: Option<Date>, rows: seq<Row<E>>) {
    forall i :: 0 <= i < |cases| && Kept(cases[i], start, end) ==> HasNumber(rows, i + 1)
  }

  predicate DistinctNumbers<E>(rows: seq<Row<E>>) {
    forall k1, k2 :: 0 <= k1 < k2 < |rows| ==> rows[k1].number != rows[k2].number
  }

  predicate IncreasingNumbers<E>(rows: seq<Row<E>>) {
    forall k1, k2 :: 0 <= k1 < k2 < |rows| ==> rows[k1].number < rows[k2].number
  }

  /**
   * The processed frame: one row for every kept case and no other, each keeping the '#' of its
   * case, with its metrics and bucket, sorted by time since assignment, largest first.
   */
  ghost predicate ProcessedSpec<E>(cases: seq<Case<E>>, start: Date, end: Option<Date>, today: Date,
                                   processed: seq<Row<E>>) {
    && (forall k :: 0 <= k < |processed| ==> RowFor(cases, start, end, today, processed[k]))
    && DistinctNumbers(processed)
    && Complete(cases, start, end, processed)
    && SortedDescending(processed)
  }

  /** The active frame: the processed rows with an open status, in the processed order. */
  ghost predicate ActiveSpec<E>(processed: seq<Row<E>>, active: seq<Row<E>>) {
    && IsSubseq(active, processed)
    && (forall k :: 0 <= k < |active| ==> !StatusClosed(active[k].record))
    && (forall k :: 0 <= k < |processed| && !StatusClosed(processed[k].record) ==> processed[k] in active)
  }

  /** The rows after the filters, before the metrics. */
  ghost predicate Selected<E>(cases: seq<Case<E>>, start: Date, end: Option<Date>, rows: seq<Row<E>>) {
    && (forall k :: 0 <= k < |rows| ==> FromCase(cases, rows[k]) && Kept(rows[k].record, start, end))
    && Complete(cases, start, end, rows)
  }

  /** A row of a kept case with its metrics set. */
  ghost predicate MeasuredRow<E>(cases: seq<Case<E>>, start: Date, end: Option<Date>, today: Date, r: Row<E>) {
    FromCase(cases, r) && Kept(r.record, start, end) && HasMetrics(r, today)
  }

  /** The rows after the metrics, in any order. */
  ghost predicate Measured<E>(cases: seq<Case<E>>, start: Date, end: Option<Date>, today: Date, rows: seq<Row<E>>) {
    && (forall k :: 0 <= k < |rows| ==> MeasuredRow(cases, start, end, today, rows[k]))
    && DistinctNumbers(rows)
    && Complete(cases, start, end, rows)
  }

  lemma {:induction false} SubseqIncreasingNumbers<E>(a: seq<Row<E>>, b: seq<Row<E>>)
    requires IsSubseq(a, b) && IncreasingNumbers(b)
    ensures IncreasingNumbers(a)
    decreases |b|
  {
    if |b| > 0 {
      var b' := b[..|b| - 1];
      assert IncreasingNumbers(b');
      if |a| > 0 && a[|a| - 1] == b[|b| - 1] && IsSubseq(a[..|a| - 1], b') {
        var a' := a[..|a| - 1];
        SubseqIncreasingNumbers(a', b');
        SubseqMembers(a', b');
        forall i, j | 0 <= i < j < |a|
          ensures a[i].number < a[j].number
        {
          if j == |a| - 1 {
            assert a[i] == a'[i] && a'[i] in b';
            var m :| 0 <= m < |b'| && b'[m] == a[i];
            assert b[m] == a[i];
          } else {
            assert a[i] == a'[i] && a[j] == a'[j];
          }
        }
      } else {
        SubseqIncreasingNumbers(a, b');
      }
    }
  }

  /** Lines 55-71: numbering, then the date window, then the negotiator exclusion. */
  function Selection<E(!new)>(cases: seq<Case<E>>, start: Date, end: Option<Date>): (rows: seq<Row<E>>)
    ensures IsSubseq(rows, Numbered(cases))
    ensures forall row :: row in rows ==> row in Numbered(cases) && Kept(row.record, start, end)
    ensures forall row {:trigger row in rows} :: row in Numbered(cases) && Kept(row.record, start, end) ==> row in rows
  {
    var n := Numbered(cases);
    var f := FilterAssignedDate(n, start, end);
    SubseqTransitive(ExcludeNegotiators(f), f, n);
    ExcludeNegotiators(f)
  }

  /** The filters keep rows in '#' order. */
  lemma SelectionInOrder<E(!new)>(cases: seq<Case<E>>, start: Date, end: Option<Date>)
    ensures IncreasingNumbers(Selection(cases, start, end))
  {
    var n := Numbered(cases);
    var f := FilterAssignedDate(n, start, end);
    SubseqTransitive(ExcludeNegotiators(f), f, n);
    SubseqIncreasingNumbers(ExcludeNegotiators(f), n);
  }

  /** Each row the filters keep is the numbered form of a kept case. */
  lemma SelectionRows<E(!new)>(cases: seq<Case<E>>, start: Date, end: Option<Date>)
    ensures var x := Selection(cases, start, end);
      forall k :: 0 <= k < |x| ==> FromCase(cases, x[k]) && Kept(x[k].record, start, end)
  {
    var x := Selection(cases, start, end);
    forall k | 0 <= k < |x|
      ensures FromCase(cases, x[k]) && Kept(x[k].record, start, end)
    {
      assert x[k] in x;
      SelectedRow(cases, start, end, x[k]);
    }
  }

  lemma SelectedRow<E(!new)>(cases: seq<Case<E>>, start: Date, end: Option<Date>, r: Row<E>)
    requires r in Selection(cases, start, end)
    ensures FromCase(cases, r) && Kept(r.record, start, end)
  {
    var n := Numbered(cases);
    var f := FilterAssignedDate(n, start, end);
    assert !NegotiatorExcluded(r.record) && r in f;
    assert InWindow(r.record.dateAssigned, start, end) && r in n;
    var m :| 0 <= m < |n| && n[m] == r;
    assert r.number == m + 1 && r.record == cases[m];
  }

  /** Every kept case survives the filters. */
  lemma SelectionComplete<E(!new)>(cases: seq<Case<E>>, start: Date, end: Option<Date>)
    ensures Complete(cases, start, end, Selection(cases, start, end))
  {
    var n := Numbered(cases);
    var f := FilterAssignedDate(n, start, end);
    var x := ExcludeNegotiators(f);
    forall i | 0 <= i < |cases| && Kept(cases[i], start, end)
      ensures HasNumber(x, i + 1)
    {
      assert n[i] in n && n[i].record == cases[i];
      assert n[i] in f;
      assert n[i] in x;
      var k :| 0 <= k < |x| && x[k] == n[i];
    }
  }

  /** Lines 74-77: the metrics keep '#' and the case, and set the metric columns. */
  lemma MetricsStep<E>(cases: seq<Case<E>>, start: Date, end: Option<Date>, today: Date, rows: seq<Row<E>>)
    requires Selected(cases, start, end, rows) && IncreasingNumbers(rows)
    ensures Measured(cases, start, end, today, WithMetrics(rows, today))
  {
    var m := WithMetrics(rows, today);
    forall k | 0 <= k < |m|
      ensures MeasuredRow(cases, start, end, today, m[k])
    {
      assert m[k] == RowMetrics(rows[k], today);
      assert m[k].number == rows[k].number && m[k].record == rows[k].record;
      assert FromCase(cases, rows[k]) && Kept(rows[k].record, start, end);
    }
    forall k1, k2 | 0 <= k1 < k2 < |m|
      ensures m[k1].number != m[k2].number
    {
      assert m[k1].number == rows[k1].number && m[k2].number == rows[k2].number;
    }
    forall i | 0 <= i < |cases| && Kept(cases[i], start, end)
      ensures HasNumber(m, i + 1)
    {
      assert HasNumber(rows, i + 1);
      var k :| 0 <= k < |rows| && rows[k].number == i + 1;
      assert m[k].number == i + 1;
    }
  }

  /** Line 86: sorting moves rows but keeps each of them, and each '#' stays unique. */
  lemma SortStep<E>(cases: seq<Case<E>>, start: Date, end: Option<Date>, today: Date, m: seq<Row<E>>)
    requires Measured(cases, start, end, today, m)
    ensures Measured(cases, start, end, today, SortBySinceAssignment(m))
  {
    SortKeepsRows(cases, start, end, today, m);
    SortKeepsNumbersDistinct(m);
    SortKeepsComplete(cases, start, end, m);
  }

  lemma SortKeepsRows<E>(cases: seq<Case<E>>, start: Date, end: Option<Date>, today: Date, m: seq<Row<E>>)
    requires forall k :: 0 <= k < |m| ==> MeasuredRow(cases, start, end, today, m[k])
    ensures var s := SortBySinceAssignment(m);
      forall k :: 0 <= k < |s| ==> MeasuredRow(cases, start, end, today, s[k])
  {
    var s := SortBySinceAssignment(m);
    forall k | 0 <= k < |s|
      ensures MeasuredRow(cases, start, end, today, s[k])
    {
      assert s[k] in multiset(m);
      var a :| 0 <= a < |m| && m[a] == s[k];
    }
  }

  lemma SortKeepsNumbersDistinct<E>(m: seq<Row<E>>)
    requires DistinctNumbers(m)
    ensures DistinctNumbers(SortBySinceAssignment(m))
  {
    var s := SortBySinceAssignment(m);
    assert NoDup(m) by {
      forall i, j | 0 <= i < j < |m|
        ensures m[i] != m[j]
      {
        assert m[i].number != m[j].number;
      }
    }
    PermutationNoDup(m, s);
    forall k1, k2 | 0 <= k1 < k2 < |s|
      ensures s[k1].number != s[k2].number
    {
      assert s[k1] in multiset(m) && s[k2] in multiset(m);
      var a :| 0 <= a < |m| && m[a] == s[k1];
      var b :| 0 <= b < |m| && m[b] == s[k2];
      assert s[k1] != s[k2];
      assert a != b;
    }
  }

  lemma SortKeepsComplete<E>(cases: seq<Case<E>>, start: Date, end: Option<Date>, m: seq<Row<E>>)
    requires Complete(cases, start, end, m)
    ensures Complete(cases, start, end, SortBySinceAssignment(m))
  {
    var s := SortBySinceAssignment(m);
    forall i | 0 <= i < |cases| && Kept(cases[i], start, end)
      ensures HasNumber(s, i + 1)
    {
      assert HasNumber(m, i + 1);
      var k :| 0 <= k < |m| && m[k].number == i + 1;
      assert m[k] in multiset(s);
      var k' :| 0 <= k' < |s| && s[k'] == m[k];
    }
  }

  /** Line 87: the bucket column is set and nothing else changes. */
  lemma DelinquencyStep<E>(cases: seq<Case<E>>, start: Date, end: Option<Date>, today: Date, s: seq<Row<E>>)
    requires Measured(cases, start, end, today, s) && SortedDescending(s)
    ensures ProcessedSpec(cases, start, end, today, WithDelinquency(s))
  {
    var d := WithDelinquency(s);
    forall k | 0 <= k < |d|
      ensures RowFor(cases, start, end, today, d[k])
    {
      assert MeasuredRow(cases, start, end, today, s[k]);
      assert d[k] == s[k].(delinquency := CategorizeDelinquency(s[k].timeSinceAssignment));
    }
    forall k1, k2 | 0 <= k1 < k2 < |d|
      ensures d[k1].number != d[k2].number
      ensures KeyAtLeast(d[k1].timeSinceAssignment, d[k2].timeSinceAssignment)
    {
      assert d[k1].number == s[k1].number && d[k2].number == s[k2].number;
      assert d[k1].timeSinceAssignment == s[k1].timeSinceAssignment;
      assert d[k2].timeSinceAssignment == s[k2].timeSinceAssignment;
    }
    forall i | 0 <= i < |cases| && Kept(cases[i], start, end)
      ensures HasNumber(d, i + 1)
    {
      assert HasNumber(s, i + 1);
      var k :| 0 <= k < |s| && s[k].number == i + 1;
      assert d[k].number == i + 1;
    }
  }

  /** Lines 90-92: the active assignments. */
  lemma ActiveStep<E(!new)>(processed: seq<Row<E>>)
    ensures ActiveSpec(processed, ActiveAssignments(processed))
  {
    var active := ActiveAssignments(processed);
    forall k | 0 <= k < |active|
      ensures !StatusClosed(active[k].record)
    {
      assert active[k] in active;
    }
    forall k | 0 <= k < |processed| && !StatusClosed(processed[k].record)
      ensures processed[k] in active
    {
      assert processed[k] in processed;
    }
  }

  /**
   * `preprocess_data` (main.py:50-94) on the raw cases, the assigned-date window and today's
   * date: the processed frame and the active assignments.
   */
  function PreprocessData<E(==,!new)>(cases: seq<Case<E>>, start: Date, end: Option<Date>, today: Date)
    : (r: (seq<Row<E>>, seq<Row<E>>))
    ensures ProcessedSpec(cases, start, end, today, r.0)
    ensures ActiveSpec(r.0, r.1)
  {
    var selected := Selection(cases, start, end);
    SelectionInOrder(cases, start, end);
    SelectionRows(cases, start, end);
    SelectionComplete(cases, start, end);
    var measured := WithMetrics(selected, today);
    MetricsStep(cases, start, end, today, selected);
    var sorted := SortBySinceAssignment(measured);
    SortStep(cases, start, end, today, measured);
    var processed := WithDelinquency(sorted);
    DelinquencyStep(cases, start, end, today, sorted);
    ActiveStep(processed);
    (processed, ActiveAssignments(processed))
  }

  /** Every processed row was assigned, so it has a time since assignment and a bucket. */
  lemma ProcessedRowsAreBucketed<E(!new)>(cases: seq<Case<E>>, start: Date, end: Option<Date>, today: Date)
    ensures var processed := PreprocessData(cases, start, end, today).0;
      forall k :: 0 <= k < |processed| ==>
        processed[k].timeSinceAssignment.Some? && processed[k].delinquency.Some?
  {
    var processed := PreprocessData(cases, start, end, today).0;
    forall k | 0 <= k < |processed|
      ensures processed[k].timeSinceAssignment.Some? && processed[k].delinquency.Some?
    {
      assert RowFor(cases, start, end, today, processed[k]);
    }
  }

  /** The frames are empty exactly when no case is kept. */
  lemma NothingKeptNothingProcessed<E(!new)>(cases: seq<Case<E>>, start: Date, end: Option<Date>, today: Date)
    ensures PreprocessData(cases, start, end, today).0 == [] <==>
      forall i :: 0 <= i < |cases| ==> !Kept(cases[i], start, end)
  {
    var processed := PreprocessData(cases, start, end, today).0;
    assert forall k :: 0 <= k < |processed| ==> Kept(cases[processed[k].number - 1], start, end) by {
      forall k | 0 <= k < |processed|
        ensures Kept(cases[processed[k].number - 1], start, end)
      {
        assert RowFor(cases, start, end, today, processed[k]);
      }
    }
    assert Complete(cases, start, end, processed);
    if processed == [] {
      assert forall number :: !HasNumber(processed, number);
    }
  }
}

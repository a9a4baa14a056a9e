/**
 * The worksheet names built from the fiscal year (main.py:39, main.py:133, test.py:143,
 * test.py:215): `str(year)[-2:]` inside a fixed text, and the renaming of the copied
 * template sheets whose name contains "FY".
 */
module Sheets {
  import opened Seqs

  function DigitChar(d: int): char
    requires 0 <= d < 10
  {
    ('0' as int + d) as char
  }

  lemma DigitCharInjective(a: int, b: int)
    requires 0 <= a < 10 && 0 <= b < 10 && DigitChar(a) == DigitChar(b)
    ensures a == b
  {
    assert DigitChar(a) as int == '0' as int + a;
    assert DigitChar(b) as int == '0' as int + b;
  }

  function DigitValue(c: char): int {
    if '0' <= c <= '9' then c as int - '0' as int else 0
  }

  /** `str(n)` for a natural number: its decimal digits, most significant first, no leading zero. */
  function NatToString(n: nat): (s: string)
    ensures |s| > 0
    ensures forall i :: 0 <= i < |s| ==> '0' <= s[i] <= '9'
    ensures s[0] != '0' || n == 0
    ensures s[|s| - 1] == DigitChar(n % 10)
    ensures (n < 10 <==> |s| == 1) && (n >= 10 ==> s[|s| - 2] == DigitChar(n / 10 % 10))
  {
    if n < 10 then [DigitChar(n)]
    else NatToString(n / 10) + [DigitChar(n % 10)]
  }

  /** The number a string of decimal digits denotes. */
  function Value(s: string): nat
  {
    if |s| == 0 then 0 else 10 * Value(s[..|s| - 1]) + DigitValue(s[|s| - 1])
  }

  /** Reading back the digits gives the number. */
  lemma {:induction false} NatToStringRoundTrip(n: nat)
    ensures Value(NatToString(n)) == n
  {
    var s := NatToString(n);
    if n >= 10 {
      NatToStringRoundTrip(n / 10);
      assert s[..|s| - 1] == NatToString(n / 10);
    }
  }

  /** `s[-2:]`: the last two characters, or the whole string when it is shorter. */
  function LastTwo(s: string): (r: string)
    ensures |s| >= 2 ==> r == [s[|s| - 2], s[|s| - 1]]
    ensures |s| < 2 ==> r == s
  {
    if |s| < 2 then s else s[|s| - 2..]
  }

  /**
   * `str(year)[-2:]`: from year 10 on, the tens and units digits of the year; before that,
   * its one digit.
   */
  function YearDigits(year: nat): (s: string)
    ensures year >= 10 ==> s == [DigitChar(year / 10 % 10), DigitChar(year % 10)]
    ensures year < 10 ==> s == [DigitChar(year)]
  {
    LastTwo(NatToString(year))
  }

  /** The tens and units digits of a year are those of the year modulo 100. */
  lemma LastTwoDigitsModulo(y: nat)
    ensures y / 10 % 10 == y % 100 / 10 && y % 10 == y % 100 % 10
    ensures y % 100 == 10 * (y % 100 / 10) + y % 100 % 10
  {
    var q, r := y / 100, y % 100;
    assert y == 100 * q + r;
    assert y / 10 == 10 * q + r / 10;
  }

  /** Two years of at least two digits share their two characters exactly when they agree modulo 100. */
  lemma YearDigitsModulo(y1: nat, y2: nat)
    requires y1 >= 10 && y2 >= 10
    ensures YearDigits(y1) == YearDigits(y2) <==> y1 % 100 == y2 % 100
  {
    LastTwoDigitsModulo(y1);
    LastTwoDigitsModulo(y2);
    if YearDigits(y1) == YearDigits(y2) {
      assert YearDigits(y1)[0] == YearDigits(y2)[0] && YearDigits(y1)[1] == YearDigits(y2)[1];
      DigitCharInjective(y1 / 10 % 10, y2 / 10 % 10);
      DigitCharInjective(y1 % 10, y2 % 10);
    }
  }

  /** main.py:133 / test.py:143: the sheet for the processed records, named by the fiscal year's last two digits. */
  function SharePointSheetName(fiscalYear: nat): (name: string)
    ensures fiscalYear >= 10 ==>
      name == "FY " + [DigitChar(fiscalYear / 10 % 10), DigitChar(fiscalYear % 10)] + " SharePoint"
  {
    "FY " + YearDigits(fiscalYear) + " SharePoint"
  }

  /**
   * main.py:39 / main.py:196 / test.py:215: the analytics sheet, named by the last two digits
   * of the fiscal year and of the next.
   */
  function AnalyticsSheetName(fiscalYear: nat): (name: string)
    ensures fiscalYear >= 10 ==>
      name == "FY " + [DigitChar(fiscalYear / 10 % 10), DigitChar(fiscalYear % 10)] + "-"
              + [DigitChar((fiscalYear + 1) / 10 % 10), DigitChar((fiscalYear + 1) % 10)] + " Analytics"
  {
    "FY " + YearDigits(fiscalYear) + "-" + YearDigits(fiscalYear + 1) + " Analytics"
  }

  /** Two fiscal years of two digits or more share a SharePoint sheet exactly when they agree modulo 100. */
  lemma SharePointSheetNameModulo(y1: nat, y2: nat)
    requires y1 >= 10 && y2 >= 10
    ensures SharePointSheetName(y1) == SharePointSheetName(y2) <==> y1 % 100 == y2 % 100
  {
    YearDigitsModulo(y1, y2);
    var n1, n2 := SharePointSheetName(y1), SharePointSheetName(y2);
    if n1 == n2 {
      assert n1[3..5] == YearDigits(y1) && n2[3..5] == YearDigits(y2);
    }
  }

  lemma YearDigitsOfYear(y: nat, tens: int, units: int)
    requires y >= 10 && tens == y / 10 % 10 && units == y % 10
    ensures YearDigits(y) == [DigitChar(tens), DigitChar(units)]
  {
  }

  /** In fiscal year 2025 the sheets are "FY 25 SharePoint" and "FY 25-26 Analytics". */
  lemma SheetNamesFor2025(fiscalYear: nat)
    requires fiscalYear == 2025
    ensures SharePointSheetName(fiscalYear) == "FY 25 SharePoint"
    ensures AnalyticsSheetName(fiscalYear) == "FY 25-26 Analytics"
  {
    YearDigitsOfYear(fiscalYear, 2, 5);
    YearDigitsOfYear(fiscalYear + 1, 2, 6);
  }

  /** At the turn of a century the second part wraps to "00". */
  lemma AnalyticsSheetNameWraps(fiscalYear: nat)
    requires fiscalYear == 2099
    ensures AnalyticsSheetName(fiscalYear) == "FY 99-00 Analytics"
  {
    YearDigitsOfYear(fiscalYear, 9, 9);
    YearDigitsOfYear(fiscalYear + 1, 0, 0);
  }

  /** Python's `'FY' in name`. */
  predicate ContainsFY(name: string)
    decreases |name|
  {
    |name| >= 2 && ((name[0] == 'F' && name[1] == 'Y') || ContainsFY(name[1..]))
  }

  /** `ContainsFY` is substring search: "F" is directly followed by "Y" somewhere in the name. */
  lemma {:induction false} ContainsFYIsSubstring(name: string)
    ensures ContainsFY(name) <==> exists i :: 0 <= i < |name| - 1 && name[i] == 'F' && name[i + 1] == 'Y'
    decreases |name|
  {
    if |name| >= 2 && !(name[0] == 'F' && name[1] == 'Y') {
      ContainsFYIsSubstring(name[1..]);
      SubstringShift(name);
    } else if |name| >= 2 {
      assert name[0] == 'F' && name[1] == 'Y';
    }
  }

  /** An occurrence of "FY" past the first character is one in the rest of the name. */
  lemma SubstringShift(name: string)
    requires |name| >= 2 && !(name[0] == 'F' && name[1] == 'Y')
    ensures (exists i :: 0 <= i < |name| - 1 && name[i] == 'F' && name[i + 1] == 'Y')
        <==> (exists i :: 0 <= i < |name| - 2 && name[1..][i] == 'F' && name[1..][i + 1] == 'Y')
  {
    var rest := name[1..];
    if exists i :: 0 <= i < |name| - 1 && name[i] == 'F' && name[i + 1] == 'Y' {
      var i :| 0 <= i < |name| - 1 && name[i] == 'F' && name[i + 1] == 'Y';
      assert rest[i - 1] == name[i] && rest[i] == name[i + 1];
    }
    if exists i :: 0 <= i < |name| - 2 && rest[i] == 'F' && rest[i + 1] == 'Y' {
      var i :| 0 <= i < |name| - 2 && rest[i] == 'F' && rest[i + 1] == 'Y';
      assert name[i + 1] == rest[i] && name[i + 2] == rest[i + 1];
    }
  }

  lemma {:induction false} NoFNoFY(name: string)
    requires 'F' !in name
    ensures !ContainsFY(name)
    decreases |name|
  {
    if |name| >= 2 {
      assert name[0] in name;
      assert forall c :: c in name[1..] ==> c in name;
      NoFNoFY(name[1..]);
    }
  }

  /**
   * The copy loop of `copy_excel_worksheet` (main.py:188-198, test.py:206-215) as far as the
   * names go: each copied sheet keeps its name unless the name contains "FY", in which case it
   * is renamed after the current fiscal year.
   */
  function RenamedSheets(names: seq<string>, fiscalYear: nat): (r: seq<string>)
    ensures |r| == |names|
    ensures forall i :: 0 <= i < |names| ==> r[i] == if ContainsFY(names[i]) then AnalyticsSheetName(fiscalYear) else names[i]
  {
    Map(names, (name: string) => if ContainsFY(name) then AnalyticsSheetName(fiscalYear) else name)
  }

  /** The analytics sheet main.py asks for (main.py:38-40) already has the name the copy gives it. */
  lemma MainTemplateSheetsKeepTheirNames(fiscalYear: nat)
    ensures RenamedSheets([AnalyticsSheetName(fiscalYear), "Caseload Analysis"], fiscalYear)
      == [AnalyticsSheetName(fiscalYear), "Caseload Analysis"]
  {
    AnalyticsSheetNameContainsFY(fiscalYear);
    NoFNoFY("Caseload Analysis");
    KeepAnalyticsName(AnalyticsSheetName(fiscalYear), "Caseload Analysis", fiscalYear);
  }

  lemma KeepAnalyticsName(a: string, b: string, fiscalYear: nat)
    requires a == AnalyticsSheetName(fiscalYear) && ContainsFY(a) && !ContainsFY(b)
    ensures RenamedSheets([a, b], fiscalYear) == [a, b]
  {
    RenamedPair(a, b, fiscalYear);
  }

  lemma AnalyticsSheetNameContainsFY(fiscalYear: nat)
    ensures ContainsFY(AnalyticsSheetName(fiscalYear))
  {
    var name := AnalyticsSheetName(fiscalYear);
    assert name[0] == 'F' && name[1] == 'Y';
  }

  lemma RenamedPair(a: string, b: string, fiscalYear: nat)
    ensures RenamedSheets([a, b], fiscalYear)
      == [if ContainsFY(a) then AnalyticsSheetName(fiscalYear) else a, if ContainsFY(b) then AnalyticsSheetName(fiscalYear) else b]
  {
    var r := RenamedSheets([a, b], fiscalYear);
    PairOf(r, r[0], r[1]);
  }

  lemma PairOf(r: seq<string>, a: string, b: string)
    requires |r| == 2 && r[0] == a && r[1] == b
    ensures r == [a, b]
  {
  }

  /**
   * test.py:227 passes the template's own sheet names: the analytics sheet takes the current
   * fiscal year's name and "Caseload Analysis" keeps its own.
   */
  lemma TemplateSheetsRenamed(fiscalYear: nat)
    ensures RenamedSheets(["FY 24-25 Analytics", "Caseload Analysis"], fiscalYear)
      == [AnalyticsSheetName(fiscalYear), "Caseload Analysis"]
  {
    var names := ["FY 24-25 Analytics", "Caseload Analysis"];
    assert ContainsFY(names[0]);
    NoFNoFY(names[1]);
    var r := RenamedSheets(names, fiscalYear);
    PairOf(r, AnalyticsSheetName(fiscalYear), names[1]);
  }

  /** In fiscal year 2025 the template's "FY 24-25 Analytics" becomes "FY 25-26 Analytics". */
  lemma TemplateSheetsRenamedIn2025(fiscalYear: nat)
    requires fiscalYear == 2025
    ensures RenamedSheets(["FY 24-25 Analytics", "Caseload Analysis"], fiscalYear)
      == ["FY 25-26 Analytics", "Caseload Analysis"]
  {
    TemplateSheetsRenamed(fiscalYear);
    SheetNamesFor2025(fiscalYear);
  }
}

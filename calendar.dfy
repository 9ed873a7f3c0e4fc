/** Month numbers and names, the `Mon YYYY` period label, and the rolling window of months the
    dashboard loads (`MONTH_NAMES`, the label built in `normalise_cpsc`, `rolling_months`). */
module Calendar {
  import opened Outcomes
  import opened Strings

  /** A month number; looking up `MONTH_NAMES` with anything else raises. */
  type Month = m: int | 1 <= m <= 12 witness 1

  /** `MONTH_NAMES`, listed from January. */
  const MonthNames: seq<string> := [
    "january", "february", "march", "april", "may", "june",
    "july", "august", "september", "october", "november", "december"
  ]

  function MonthName(m: Month): string {
    MonthNames[m - 1]
  }

  /** `str.title()` on a word made of letters: the first letter upper-cased, the rest lower-cased. */
  function Title(w: string): (r: string)
    ensures |r| == |w|
  {
    if w == [] then [] else [UpperChar(w[0])] + Lower(w[1..])
  }

  /** The three-letter abbreviation `MONTH_NAMES[m].title()[:3]`. */
  function Abbrev(m: Month): (r: string)
    ensures |r| == 3
  {
    Title(MonthName(m))[..3]
  }

  /** `Period_Label`: the abbreviated month, a space and the year, e.g. `Mar 2024`. */
  function PeriodLabel(year: int, m: Month): (r: string)
    ensures |r| == 4 + |IntToString(year)|
    ensures r[..3] == Abbrev(m) && r[3] == ' ' && r[4..] == IntToString(year)
  {
    Abbrev(m) + " " + IntToString(year)
  }

  /** The letters of an abbreviation: the capitalised first letter and the next two of the name. */
  lemma AbbrevLetters(m: Month)
    ensures Abbrev(m)[0] == UpperChar(MonthName(m)[0])
    ensures Abbrev(m)[1] == LowerChar(MonthName(m)[1]) && Abbrev(m)[2] == LowerChar(MonthName(m)[2])
  {
  }

  /** Reads a month back from its abbreviation. */
  function MonthOfAbbrev(a: string): (m: Option<Month>)
  {
    if |a| != 3 then None
    else if a[0] == 'J' then (if a[1] == 'a' then Some(1) else if a[2] == 'n' then Some(6) else Some(7))
    else if a[0] == 'F' then Some(2)
    else if a[0] == 'M' then (if a[2] == 'r' then Some(3) else Some(5))
    else if a[0] == 'A' then (if a[1] == 'p' then Some(4) else Some(8))
    else if a[0] == 'S' then Some(9)
    else if a[0] == 'O' then Some(10)
    else if a[0] == 'N' then Some(11)
    else if a[0] == 'D' then Some(12)
    else None
  }

  lemma AbbrevRoundTripEarly(m: Month)
    requires m <= 6
    ensures MonthOfAbbrev(Abbrev(m)) == Some(m)
  {
    AbbrevLetters(m);
  }

  lemma AbbrevRoundTripLate(m: Month)
    requires m > 6
    ensures MonthOfAbbrev(Abbrev(m)) == Some(m)
  {
    AbbrevLetters(m);
  }

  lemma AbbrevRoundTrip(m: Month)
    ensures MonthOfAbbrev(Abbrev(m)) == Some(m)
  {
    if m <= 6 { AbbrevRoundTripEarly(m); } else { AbbrevRoundTripLate(m); }
  }

  /** The twelve abbreviations differ, so the abbreviation determines the month. */
  lemma AbbrevInjective(a: Month, b: Month)
    requires Abbrev(a) == Abbrev(b)
    ensures a == b
  {
    AbbrevRoundTrip(a);
    AbbrevRoundTrip(b);
  }

  lemma PeriodLabelExample()
    ensures PeriodLabel(2024, 3) == "Mar 2024"
  {
    AbbrevLetters(3);
    assert Abbrev(3) == "Mar";
  }

  /** Distinct periods get distinct labels. */
  lemma PeriodLabelInjective(y1: int, m1: Month, y2: int, m2: Month)
    requires PeriodLabel(y1, m1) == PeriodLabel(y2, m2)
    ensures y1 == y2 && m1 == m2
  {
    var l := PeriodLabel(y1, m1);
    AbbrevInjective(m1, m2);
    IntToStringInjective(y1, y2);
  }

  // ---------------------------------------------------------------------------
  // The rolling window
  // ---------------------------------------------------------------------------

  datatype YearMonth = YearMonth(year: int, month: Month)

  /** Months counted from January of year 0. */
  function MonthIndex(p: YearMonth): int {
    12 * p.year + (p.month - 1)
  }

  /** The month with a given index. */
  function FromIndex(k: int): (p: YearMonth)
    ensures MonthIndex(p) == k
  {
    YearMonth(k / 12, k % 12 + 1)
  }

  lemma MonthIndexInjective(p: YearMonth, q: YearMonth)
    requires MonthIndex(p) == MonthIndex(q)
    ensures p == q
  {
  }

  /** The calendar month before `p` (`p - relativedelta(months=1)`). */
  function PrevMonth(p: YearMonth): (q: YearMonth)
    ensures MonthIndex(q) == MonthIndex(p) - 1
  {
    if p.month == 1 then YearMonth(p.year - 1, 12) else YearMonth(p.year, p.month - 1)
  }

  /** `rolling_months(n)` on the day `today`: n months, most recent first, starting two months before
      today's month (the reporting lag) and stepping back one month at a time. */
  function RollingMonths(today: YearMonth, n: nat): (r: seq<YearMonth>)
    ensures |r| == n
  {
    seq(n, i requires 0 <= i < n => FromIndex(MonthIndex(today) - 2 - i))
  }

  /** The window starts two calendar months before today's and each entry is the month before the
      previous one; no month appears twice. */
  lemma RollingMonthsSpec(today: YearMonth, n: nat)
    ensures n > 0 ==> RollingMonths(today, n)[0] == PrevMonth(PrevMonth(today))
    ensures forall i :: 0 <= i < n - 1 ==> RollingMonths(today, n)[i + 1] == PrevMonth(RollingMonths(today, n)[i])
    ensures forall i, j :: 0 <= i < j < n ==> RollingMonths(today, n)[i] != RollingMonths(today, n)[j]
  {
    var r := RollingMonths(today, n);
    forall i | 0 <= i < n ensures MonthIndex(r[i]) == MonthIndex(today) - 2 - i {
      assert r[i] == FromIndex(MonthIndex(today) - 2 - i);
    }
    if n > 0 {
      MonthIndexInjective(r[0], PrevMonth(PrevMonth(today)));
    }
    forall i | 0 <= i < n - 1 ensures r[i + 1] == PrevMonth(r[i]) {
      MonthIndexInjective(r[i + 1], PrevMonth(r[i]));
    }
  }
}

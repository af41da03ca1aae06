/** Calendar dates as day numbers, and their `YYYY-MM-DD` text.

    The source keeps due dates as `moment` objects and writes them with
    `formatDate_YYYY_MM_DD`; here a date is the number of days since 0000-01-01 in the
    proleptic Gregorian calendar, which is all the schedule code needs (adding days,
    subtracting dates, comparing with the new-card date). */
module Calendar {
  import opened Text
  import opened Wrappers

  /** A calendar day, counted from 0000-01-01 (day 0). */
  type Day = nat

  /** One day in ticks (milliseconds), the unit of `moment.valueOf()`. */
  const TicksPerDay: int := 24 * 3600 * 1000

  datatype Date = Date(year: nat, month: nat, day: nat)

  predicate IsLeapYear(y: nat) {
    y % 4 == 0 && (y % 100 != 0 || y % 400 == 0)
  }

  function DaysInYear(y: nat): nat {
    if IsLeapYear(y) then 366 else 365
  }

  function DaysInMonth(y: nat, m: nat): (n: nat)
    requires 1 <= m <= 12
    ensures 28 <= n <= 31
  {
    if m == 2 then (if IsLeapYear(y) then 29 else 28)
    else if m == 4 || m == 6 || m == 9 || m == 11 then 30
    else 31
  }

  predicate ValidDate(d: Date) {
    1 <= d.month <= 12 && 1 <= d.day <= DaysInMonth(d.year, d.month)
  }

  /** Days in the years before `y`: 365 each, plus one per leap year among them. */
  function DaysBeforeYear(y: nat): nat {
    365 * y + (y + 3) / 4 - (y + 99) / 100 + (y + 399) / 400
  }

  /** Each year adds its own length. */
  lemma DaysBeforeYearStep(y: nat)
    ensures DaysBeforeYear(y + 1) == DaysBeforeYear(y) + DaysInYear(y)
  {
    MultipleStep4(y);
    MultipleStep100(y);
    MultipleStep400(y);
    DivisibleChain(y);
    var i4 := if y % 4 == 0 then 1 else 0;
    var i100 := if y % 100 == 0 then 1 else 0;
    var i400 := if y % 400 == 0 then 1 else 0;
    assert DaysBeforeYear(y + 1) == DaysBeforeYear(y) + 365 + i4 - i100 + i400;
  }

  /** A multiple of 400 is one of 100, and a multiple of 100 is one of 4. */
  lemma DivisibleChain(y: nat)
    ensures y % 400 == 0 ==> y % 100 == 0
    ensures y % 100 == 0 ==> y % 4 == 0
  {
    if y % 400 == 0 {
      var k := y / 400;
      assert y == 100 * (4 * k);
    }
    if y % 100 == 0 {
      var k := y / 100;
      assert y == 4 * (25 * k);
    }
  }

  /** Moving past a multiple of 4 (100, 400) adds one to the count of multiples. */
  lemma MultipleStep4(y: nat)
    ensures (y + 4) / 4 == (y + 3) / 4 + (if y % 4 == 0 then 1 else 0)
  {
  }

  lemma MultipleStep100(y: nat)
    ensures (y + 100) / 100 == (y + 99) / 100 + (if y % 100 == 0 then 1 else 0)
  {
  }

  lemma MultipleStep400(y: nat)
    ensures (y + 400) / 400 == (y + 399) / 400 + (if y % 400 == 0 then 1 else 0)
  {
  }

  function DaysBeforeMonth(y: nat, m: nat): nat
    requires 1 <= m <= 13
  {
    if m == 1 then 0 else DaysBeforeMonth(y, m - 1) + DaysInMonth(y, m - 1)
  }

  lemma MonthsFillYear(y: nat)
    ensures DaysBeforeMonth(y, 13) == DaysInYear(y)
  {
    var feb := DaysInMonth(y, 2);
    assert DaysBeforeMonth(y, 2) == 31;
    assert DaysBeforeMonth(y, 3) == 31 + feb;
    assert DaysBeforeMonth(y, 4) == 62 + feb;
    assert DaysBeforeMonth(y, 5) == 92 + feb;
    assert DaysBeforeMonth(y, 6) == 123 + feb;
    assert DaysBeforeMonth(y, 7) == 153 + feb;
    assert DaysBeforeMonth(y, 8) == 184 + feb;
    assert DaysBeforeMonth(y, 9) == 215 + feb;
    assert DaysBeforeMonth(y, 10) == 245 + feb;
    assert DaysBeforeMonth(y, 11) == 276 + feb;
    assert DaysBeforeMonth(y, 12) == 306 + feb;
  }

  lemma {:induction false} DaysBeforeYearMonotonic(y: nat, z: nat)
    requires y <= z
    ensures DaysBeforeYear(y) + (z - y) * 365 <= DaysBeforeYear(z)
    decreases z - y
  {
    if y < z {
      DaysBeforeYearMonotonic(y, z - 1);
      DaysBeforeYearStep(z - 1);
    }
  }

  lemma {:induction false} DaysBeforeMonthMonotonic(y: nat, m: nat, k: nat)
    requires 1 <= m <= k <= 13
    ensures DaysBeforeMonth(y, m) + (k - m) * 28 <= DaysBeforeMonth(y, k)
    decreases k - m
  {
    if m < k {
      DaysBeforeMonthMonotonic(y, m, k - 1);
    }
  }

  /** The day number of a valid date. */
  function DayNumber(d: Date): Day
    requires ValidDate(d)
  {
    DaysBeforeYear(d.year) + DaysBeforeMonth(d.year, d.month) + d.day - 1
  }

  /** The date of day `r` counted from the start of month `m` of year `y`. */
  function MonthSearch(y: nat, m: nat, r: nat): (d: Date)
    requires 1 <= m <= 12
    requires DaysBeforeMonth(y, m) + r < DaysInYear(y)
    ensures ValidDate(d) && d.year == y && d.month >= m
    ensures DaysBeforeMonth(y, d.month) + d.day - 1 == DaysBeforeMonth(y, m) + r
    decreases 12 - m
  {
    if r < DaysInMonth(y, m) then Date(y, m, r + 1)
    else
      MonthsFillYear(y);
      MonthSearch(y, m + 1, r - DaysInMonth(y, m))
  }

  /** The date of day `r` counted from the start of year `y`. */
  function YearSearch(y: nat, r: nat): (d: Date)
    ensures ValidDate(d) && d.year >= y
    ensures DayNumber(d) == DaysBeforeYear(y) + r
    decreases r
  {
    if r < DaysInYear(y) then MonthSearch(y, 1, r)
    else
      DaysBeforeYearStep(y);
      YearSearch(y + 1, r - DaysInYear(y))
  }

  /** No year is longer than 366 days. */
  lemma {:induction false} DaysBeforeYearAtMost(y: nat)
    ensures DaysBeforeYear(y) <= 366 * y
  {
    if y > 0 {
      DaysBeforeYearAtMost(y - 1);
      DaysBeforeYearStep(y - 1);
    }
  }

  /** The calendar date of a day number; the search starts from a year that
      cannot be later than the answer. */
  function DateOf(n: Day): (d: Date)
    ensures ValidDate(d) && DayNumber(d) == n
  {
    var y := n / 366;
    DaysBeforeYearAtMost(y);
    YearSearch(y, n - DaysBeforeYear(y))
  }

  /** A valid date lies inside its own year's span of day numbers. */
  lemma DayNumberInYear(d: Date)
    requires ValidDate(d)
    ensures DaysBeforeYear(d.year) <= DayNumber(d) < DaysBeforeYear(d.year + 1)
  {
    DaysBeforeMonthMonotonic(d.year, d.month + 1, 13);
    MonthsFillYear(d.year);
    DaysBeforeYearStep(d.year);
  }

  /** Two valid dates with the same day number are the same date. */
  lemma {:induction false} DayNumberInjective(a: Date, b: Date)
    requires ValidDate(a) && ValidDate(b) && DayNumber(a) == DayNumber(b)
    ensures a == b
  {
    DayNumberSameYear(a, b);
    MonthDayInjective(a.year, a, b);
  }

  /** Two valid dates with the same day number fall in the same year. */
  lemma {:induction false} DayNumberSameYear(a: Date, b: Date)
    requires ValidDate(a) && ValidDate(b) && DayNumber(a) == DayNumber(b)
    ensures a.year == b.year
  {
    YearOrder(a, b);
    YearOrder(b, a);
  }

  /** A date of an earlier year has a smaller day number. */
  lemma {:induction false} YearOrder(a: Date, b: Date)
    requires ValidDate(a) && ValidDate(b)
    ensures a.year < b.year ==> DayNumber(a) < DayNumber(b)
  {
    if a.year < b.year {
      DayNumberInYear(a);
      DayNumberInYear(b);
      DaysBeforeYearMonotonic(a.year + 1, b.year);
    }
  }

  /** Within one year, the same count of days from the start of the year is the
      same month and day. */
  lemma {:induction false} MonthDayInjective(y: nat, a: Date, b: Date)
    requires ValidDate(a) && ValidDate(b) && a.year == y && b.year == y
    requires DaysBeforeMonth(y, a.month) + a.day == DaysBeforeMonth(y, b.month) + b.day
    ensures a == b
  {
    MonthOrder(y, a, b);
    MonthOrder(y, b, a);
  }

  /** Within one year, a date of an earlier month is fewer days from the start. */
  lemma {:induction false} MonthOrder(y: nat, a: Date, b: Date)
    requires ValidDate(a) && ValidDate(b) && a.year == y && b.year == y
    ensures a.month < b.month ==> DaysBeforeMonth(y, a.month) + a.day < DaysBeforeMonth(y, b.month) + b.day
  {
    if a.month < b.month {
      DaysBeforeMonthMonotonic(y, a.month + 1, b.month);
    }
  }

  lemma DateOfDayNumber(d: Date)
    requires ValidDate(d)
    ensures DateOf(DayNumber(d)) == d
  {
    DayNumberInjective(DateOf(DayNumber(d)), d);
  }

  /** The first day that needs a five-digit year. */
  function FirstDayOfYear10000(): Day {
    DaysBeforeYear(10000)
  }

  /** `formatDate_YYYY_MM_DD`: four-digit year, two-digit month and day. */
  function FormatDate(n: Day): string {
    var d := DateOf(n);
    PadNat(d.year, 4) + "-" + PadNat(d.month, 2) + "-" + PadNat(d.day, 2)
  }

  /** Reads `YYYY-MM-DD`; anything else, or a date the calendar does not have
      (such as 2023-02-30), is `None`. */
  function ParseDate(s: string): (r: Option<Day>)
    ensures r.Some? ==> |s| == 10
  {
    if |s| == 10 && AllDigits(s[..4]) && s[4] == '-' && AllDigits(s[5..7]) && s[7] == '-'
       && AllDigits(s[8..])
    then
      var d := Date(ParseNat(s[..4]), ParseNat(s[5..7]), ParseNat(s[8..]));
      if ValidDate(d) then Some(DayNumber(d)) else None
    else None
  }

  /** Days before the year 10000 fall in four-digit years. */
  lemma YearOfDayBelow10000(n: Day)
    requires n < FirstDayOfYear10000()
    ensures DateOf(n).year < 10000 && 10000 == Pow10(4)
  {
    var d := DateOf(n);
    DayNumberInYear(d);
    if d.year >= 10000 {
      DaysBeforeYearMonotonic(10000, d.year);
    }
  }

  /** The text of a valid four-digit-year date reads back as that date. */
  lemma ParseDateText(d: Date)
    requires ValidDate(d) && d.year < 10000
    ensures ParseDate(PadNat(d.year, 4) + "-" + PadNat(d.month, 2) + "-" + PadNat(d.day, 2))
            == Some(DayNumber(d))
  {
    PadNatWidth(d.year, 4);
    PadNatWidth(d.month, 2);
    PadNatWidth(d.day, 2);
    var s := PadNat(d.year, 4) + "-" + PadNat(d.month, 2) + "-" + PadNat(d.day, 2);
    assert s[..4] == PadNat(d.year, 4);
    assert s[5..7] == PadNat(d.month, 2);
    assert s[8..] == PadNat(d.day, 2);
    assert Date(ParseNat(s[..4]), ParseNat(s[5..7]), ParseNat(s[8..])) == d;
  }

  /** Round trip: every day of years 0 to 9999 is read back from its text. */
  lemma ParseFormatDate(n: Day)
    requires n < FirstDayOfYear10000()
    ensures ParseDate(FormatDate(n)) == Some(n)
  {
    YearOfDayBelow10000(n);
    ParseDateText(DateOf(n));
  }

  /** The text of a day is ten characters of digits and dashes (the `[\d-]+`
      field of the schedule comment). */
  lemma FormatDateShape(n: Day)
    requires n < FirstDayOfYear10000()
    ensures |FormatDate(n)| == 10
    ensures AllDateChars(FormatDate(n))
  {
    var d := DateOf(n);
    YearOfDayBelow10000(n);
    PadNatWidth(d.year, 4);
    PadNatWidth(d.month, 2);
    PadNatWidth(d.day, 2);
  }
}

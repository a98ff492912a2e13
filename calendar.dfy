/** Whole-day calendar arithmetic of ECMAScript's `Date` (ECMA-262, section
    21.4.1: Day, DayFromYear, YearFromTime, MonthFromTime, DateFromTime,
    WeekDay and MakeDay), restricted to local midnights.

    A date is a day number: the number of days since 1 January 1970, so the
    time value of a local midnight divided by 86,400,000. Months are counted
    from 0 (January) to 11 (December), as `getMonth` returns them. */
module Calendar {

  /** Days since 1 January 1970 (negative before it). */
  type DayNumber = int

  /** The proleptic Gregorian leap-year rule of ECMA-262 DaysInYear. */
  predicate IsLeapYear(year: int) {
    year % 4 == 0 && (year % 100 != 0 || year % 400 == 0)
  }

  function DaysInYear(year: int): int {
    if IsLeapYear(year) then 366 else 365
  }

  /** ECMA-262 DayFromYear: the day number of 1 January of `year`. */
  function DayFromYear(year: int): DayNumber {
    365 * (year - 1970) + (year - 1969) / 4 - (year - 1901) / 100 + (year - 1601) / 400
  }

  /** The three floor quotients of DayFromYear step up exactly at
      multiples of 4, 100 and 400. */
  lemma FloorSteps(year: int)
    ensures (year - 1968) / 4 == (year - 1969) / 4 + (if year % 4 == 0 then 1 else 0)
    ensures (year - 1900) / 100 == (year - 1901) / 100 + (if year % 100 == 0 then 1 else 0)
    ensures (year - 1600) / 400 == (year - 1601) / 400 + (if year % 400 == 0 then 1 else 0)
  {
    FloorStep4(year);
    FloorStep100(year);
    FloorStep400(year);
  }

  lemma FloorStep4(year: int)
    ensures (year - 1968) / 4 == (year - 1969) / 4 + (if year % 4 == 0 then 1 else 0)
  {
    var q, r := (year - 1969) / 4, (year - 1969) % 4;
    if r == 3 {
      assert year - 1968 == 4 * (q + 1) && year == 4 * (q + 493);
    } else {
      assert year - 1968 == 4 * q + (r + 1) && year == 4 * (q + 492) + (r + 1);
    }
  }

  lemma FloorStep100(year: int)
    ensures (year - 1900) / 100 == (year - 1901) / 100 + (if year % 100 == 0 then 1 else 0)
  {
    var q, r := (year - 1901) / 100, (year - 1901) % 100;
    if r == 99 {
      assert year - 1900 == 100 * (q + 1) && year == 100 * (q + 20);
    } else {
      assert year - 1900 == 100 * q + (r + 1) && year == 100 * (q + 19) + (r + 1);
    }
  }

  lemma FloorStep400(year: int)
    ensures (year - 1600) / 400 == (year - 1601) / 400 + (if year % 400 == 0 then 1 else 0)
  {
    var q, r := (year - 1601) / 400, (year - 1601) % 400;
    if r == 399 {
      assert year - 1600 == 400 * (q + 1) && year == 400 * (q + 5);
    } else {
      assert year - 1600 == 400 * q + (r + 1) && year == 400 * (q + 4) + (r + 1);
    }
  }

  /** Consecutive years start exactly DaysInYear apart: the DayFromYear
      formula encodes the Gregorian leap-year rule. */
  lemma DayFromYearStep(year: int)
    ensures DayFromYear(year + 1) == DayFromYear(year) + DaysInYear(year)
  {
    FloorSteps(year);
    DivisibilityChain(year);
    var step := (if year % 4 == 0 then 1 else 0) - (if year % 100 == 0 then 1 else 0)
                + (if year % 400 == 0 then 1 else 0);
    assert DayFromYear(year + 1) == DayFromYear(year) + 365 + step;
    assert DaysInYear(year) == 365 + step;
  }

  /** Multiples of 400 are multiples of 100, which are multiples of 4. */
  lemma DivisibilityChain(year: int)
    ensures year % 100 == 0 ==> year % 4 == 0
    ensures year % 400 == 0 ==> year % 100 == 0
  {
    if year % 100 == 0 {
      assert year == 4 * (25 * (year / 100));
    }
    if year % 400 == 0 {
      assert year == 100 * (4 * (year / 400));
    }
  }

  /** DayFromYear stays within a few days of the mean Gregorian year of
      146097 / 400 days. */
  lemma DayFromYearBounds(year: int)
    ensures 146097 * (year - 1970) - 506 <= 400 * DayFromYear(year) <= 146097 * (year - 1970) + 589
  {
    var y := year - 1970;
    var a, b, c := (y + 1) / 4, (y + 69) / 100, (y + 369) / 400;
    assert y + 1 - 3 <= 4 * a <= y + 1;
    assert y + 69 - 99 <= 100 * b <= y + 69;
    assert y + 369 - 399 <= 400 * c <= y + 369;
    assert DayFromYear(year) == 365 * y + a - b + c;
  }

  /** Later years start later: the start of `b` is at least the start of
      the year after `a`. */
  lemma DayFromYearMonotone(a: int, b: int)
    requires a < b
    ensures DayFromYear(a + 1) <= DayFromYear(b)
  {
    if b > a + 1 {
      DayFromYearBounds(a + 1);
      DayFromYearBounds(b);
    }
  }

  /** ECMA-262 YearFromTime: the year whose days contain day `n`. */
  function YearFromDay(n: DayNumber): (year: int)
    ensures DayFromYear(year) <= n < DayFromYear(year + 1)
  {
    var e := 1970 + (400 * n) / 146097;
    DayFromYearBounds(e - 1);
    DayFromYearBounds(e + 2);
    if n < DayFromYear(e) then e - 1
    else if n < DayFromYear(e + 1) then e
    else e + 1
  }

  /** The year containing a day is the only year whose range holds it. */
  lemma YearFromDayUnique(n: DayNumber, year: int)
    requires DayFromYear(year) <= n < DayFromYear(year + 1)
    ensures YearFromDay(n) == year
  {
    var y := YearFromDay(n);
    if y < year {
      DayFromYearMonotone(y, year);
    } else if year < y {
      DayFromYearMonotone(year, y);
    }
  }

  /** The length of a month by the calendar rule: thirty days have
      September, April, June and November; February has 28, or 29 in a
      leap year; the rest have 31. */
  function MonthLength(year: int, month: int): (days: int)
    requires 0 <= month < 12
    ensures 28 <= days <= 31
    ensures month == 1 ==> (days == 29 <==> IsLeapYear(year))
  {
    if month == 1 then (if IsLeapYear(year) then 29 else 28)
    else if month == 3 || month == 5 || month == 8 || month == 10 then 30
    else 31
  }

  /** The days of `year` before month `month` (0..12). */
  function CumDays(year: int, month: int): int
    requires 0 <= month <= 12
  {
    if month == 0 then 0 else CumDays(year, month - 1) + MonthLength(year, month - 1)
  }

  /** The cumulative days agree with the table of ECMA-262 MonthFromTime,
      and the whole year has DaysInYear days. */
  lemma CumDaysTable(year: int)
    ensures var leap := if IsLeapYear(year) then 1 else 0;
      CumDays(year, 1) == 31 && CumDays(year, 2) == 59 + leap &&
      CumDays(year, 3) == 90 + leap && CumDays(year, 4) == 120 + leap &&
      CumDays(year, 5) == 151 + leap && CumDays(year, 6) == 181 + leap &&
      CumDays(year, 7) == 212 + leap && CumDays(year, 8) == 243 + leap &&
      CumDays(year, 9) == 273 + leap && CumDays(year, 10) == 304 + leap &&
      CumDays(year, 11) == 334 + leap && CumDays(year, 12) == DaysInYear(year)
  {
    assert CumDays(year, 1) == 31;
    assert CumDays(year, 2) == CumDays(year, 1) + MonthLength(year, 1);
    assert CumDays(year, 3) == CumDays(year, 2) + 31;
    assert CumDays(year, 4) == CumDays(year, 3) + 30;
    assert CumDays(year, 5) == CumDays(year, 4) + 31;
    assert CumDays(year, 6) == CumDays(year, 5) + 30;
    assert CumDays(year, 7) == CumDays(year, 6) + 31;
    assert CumDays(year, 8) == CumDays(year, 7) + 31;
    assert CumDays(year, 9) == CumDays(year, 8) + 30;
    assert CumDays(year, 10) == CumDays(year, 9) + 31;
    assert CumDays(year, 11) == CumDays(year, 10) + 30;
    assert CumDays(year, 12) == CumDays(year, 11) + 31;
  }

  /** Each month adds its length, and the twelve months fill the year. */
  lemma CumDaysStep(year: int, month: int)
    requires 0 <= month < 12
    ensures CumDays(year, month + 1) == CumDays(year, month) + MonthLength(year, month)
    ensures CumDays(year, 12) == DaysInYear(year)
  {
    CumDaysTable(year);
  }

  /** The cumulative table increases by at least 28 per month. */
  lemma {:induction false} CumDaysMonotone(year: int, i: int, j: int)
    requires 0 <= i <= j <= 12
    ensures CumDays(year, i) + 28 * (j - i) <= CumDays(year, j)
    decreases j - i
  {
    if i < j {
      CumDaysMonotone(year, i + 1, j);
      CumDaysStep(year, i);
    }
  }

  /** ECMA-262 MonthFromTime within a year: the month whose days hold day
      `d` of the year, searched from `month` downwards. */
  function FindMonth(year: int, d: int, month: int): (m: int)
    requires 0 <= month < 12
    requires 0 <= d < CumDays(year, month + 1)
    ensures 0 <= m <= month
    ensures CumDays(year, m) <= d < CumDays(year, m + 1)
    decreases month
  {
    if month == 0 || CumDays(year, month) <= d then month
    else FindMonth(year, d, month - 1)
  }

  /** A day of the year lies in exactly one month. */
  lemma MonthUnique(year: int, d: int, m1: int, m2: int)
    requires 0 <= m1 < 12 && 0 <= m2 < 12
    requires CumDays(year, m1) <= d < CumDays(year, m1 + 1)
    requires CumDays(year, m2) <= d < CumDays(year, m2 + 1)
    ensures m1 == m2
  {
    if m1 < m2 {
      CumDaysMonotone(year, m1 + 1, m2);
    } else if m2 < m1 {
      CumDaysMonotone(year, m2 + 1, m1);
    }
  }

  /** The day number of the first day of `month` in `year`. */
  function FirstOfMonth(year: int, month: int): DayNumber
    requires 0 <= month < 12
  {
    DayFromYear(year) + CumDays(year, month)
  }

  /** Calendar fields of a day: year, month 0..11 and day of the month. */
  datatype YearMonthDay = YearMonthDay(year: int, month: int, date: int)

  /** A real calendar date: a month 0..11 and a day within that month. */
  predicate IsCalendarDate(r: YearMonthDay) {
    0 <= r.month < 12 && 1 <= r.date <= MonthLength(r.year, r.month)
  }

  /** The day number of a calendar date. */
  function DayOfDate(r: YearMonthDay): DayNumber
    requires IsCalendarDate(r)
  {
    FirstOfMonth(r.year, r.month) + r.date - 1
  }

  /** ECMA-262 YearFromTime, MonthFromTime and DateFromTime as they compute:
      find the year, then the month by the cumulative table. */
  function DecodeDay(n: DayNumber): (r: YearMonthDay)
    ensures IsCalendarDate(r) && DayOfDate(r) == n
  {
    var year := YearFromDay(n);
    DayFromYearStep(year);
    CumDaysStep(year, 0);
    var d := n - DayFromYear(year);
    var month := FindMonth(year, d, 11);
    CumDaysStep(year, month);
    YearMonthDay(year, month, d - CumDays(year, month) + 1)
  }

  /** A calendar date's day lies in its own year, and in its own month of
      that year. */
  lemma DayOfDateBounds(r: YearMonthDay)
    requires IsCalendarDate(r)
    ensures YearFromDay(DayOfDate(r)) == r.year
    ensures CumDays(r.year, r.month) <= DayOfDate(r) - DayFromYear(r.year) < CumDays(r.year, r.month + 1)
  {
    CumDaysStep(r.year, r.month);
    CumDaysMonotone(r.year, r.month + 1, 12);
    CumDaysMonotone(r.year, 0, r.month);
    DayFromYearStep(r.year);
    var n := DayOfDate(r);
    assert n == DayFromYear(r.year) + CumDays(r.year, r.month) + r.date - 1;
    assert n < DayFromYear(r.year) + CumDays(r.year, 12);
    YearFromDayUnique(n, r.year);
  }

  /** Every day number names at most one calendar date. */
  lemma DayOfDateInjective(r1: YearMonthDay, r2: YearMonthDay)
    requires IsCalendarDate(r1) && IsCalendarDate(r2)
    requires DayOfDate(r1) == DayOfDate(r2)
    ensures r1 == r2
  {
    DayOfDateBounds(r1);
    DayOfDateBounds(r2);
    MonthUnique(r1.year, DayOfDate(r1) - DayFromYear(r1.year), r1.month, r2.month);
  }

  /** The calendar date of day `n`: the only real calendar date whose day
      number is `n`. */
  function ToYearMonthDay(n: DayNumber): (r: YearMonthDay)
    ensures IsCalendarDate(r) && DayOfDate(r) == n
  {
    var w := DecodeDay(n);
    DecodingUnique(n);
    var r :| IsCalendarDate(r) && DayOfDate(r) == n; r
  }

  /** At most one calendar date has day number `n`. */
  lemma DecodingUnique(n: DayNumber)
    ensures forall r1, r2 | IsCalendarDate(r1) && IsCalendarDate(r2) && DayOfDate(r1) == n && DayOfDate(r2) == n :: r1 == r2
  {
    forall r1, r2 | IsCalendarDate(r1) && IsCalendarDate(r2) && DayOfDate(r1) == n && DayOfDate(r2) == n
      ensures r1 == r2
    {
      DayOfDateInjective(r1, r2);
    }
  }

  /** Every calendar date is named by exactly one day number: decoding the
      day number of (year, month, date) gives those fields back. */
  lemma ToYearMonthDayOfDate(year: int, month: int, date: int)
    requires 0 <= month < 12 && 1 <= date <= MonthLength(year, month)
    ensures ToYearMonthDay(FirstOfMonth(year, month) + date - 1) == YearMonthDay(year, month, date)
  {
    var r := YearMonthDay(year, month, date);
    DayOfDateInjective(r, ToYearMonthDay(DayOfDate(r)));
  }

  /** `getFullYear`, `getMonth`, `getDate` and `getDay` of a local day. */
  function Year(n: DayNumber): int { ToYearMonthDay(n).year }
  function Month(n: DayNumber): int { ToYearMonthDay(n).month }
  function Date(n: DayNumber): int { ToYearMonthDay(n).date }

  /** ECMA-262 WeekDay: 0 is Sunday; day 0 (1 January 1970) was a Thursday. */
  function WeekDay(n: DayNumber): (w: int)
    ensures 0 <= w < 7
  {
    (n + 4) % 7
  }

  /** ECMA-262 MakeDay for whole days: month overflow moves whole years
      (floor and modulo by 12), date overflow moves whole days. */
  function MakeDay(year: int, month: int, date: int): DayNumber {
    var ym := year + month / 12;
    var mn := month % 12;
    FirstOfMonth(ym, mn) + date - 1
  }

  /** Months counted from January of year 0: the month index of day `n`. */
  function MonthIndex(n: DayNumber): int {
    12 * Year(n) + Month(n)
  }

  /** The first day of the month with index `k`. */
  function MonthStart(k: int): DayNumber {
    FirstOfMonth(k / 12, k % 12)
  }

  /** Splitting a month index into year and month. */
  lemma SplitMonthIndex(year: int, month: int)
    requires 0 <= month < 12
    ensures (12 * year + month) / 12 == year && (12 * year + month) % 12 == month
  {
  }

  /** The first day of month `k` lies in month `k` and is its day 1. */
  lemma MonthStartFields(k: int)
    ensures ToYearMonthDay(MonthStart(k)) == YearMonthDay(k / 12, k % 12, 1)
    ensures MonthIndex(MonthStart(k)) == k
  {
    ToYearMonthDayOfDate(k / 12, k % 12, 1);
  }

  /** Consecutive months start exactly one month length apart. */
  lemma MonthStartStep(k: int)
    ensures MonthStart(k + 1) == MonthStart(k) + MonthLength(k / 12, k % 12)
  {
    var y, m := k / 12, k % 12;
    SplitMonthIndex(y, m);
    CumDaysStep(y, m);
    if m < 11 {
      SplitMonthIndex(y, m + 1);
      assert k + 1 == 12 * y + (m + 1);
    } else {
      SplitMonthIndex(y + 1, 0);
      assert k + 1 == 12 * (y + 1) + 0;
      DayFromYearStep(y);
    }
  }

  /** Each month starts after the one before it. */
  lemma MonthStartIncreases(k: int)
    ensures MonthStart(k) < MonthStart(k + 1)
  {
    MonthStartStep(k);
  }

  /** Later months start later, so month anchors are ordered as the months. */
  lemma {:induction false} MonthStartMonotone(j: int, k: int)
    requires j < k
    ensures MonthStart(j) < MonthStart(k)
    decreases k - j
  {
    MonthStartIncreases(j);
    if j + 1 < k {
      MonthStartMonotone(j + 1, k);
    }
  }

  /** Comparing month anchors is comparing month indices. */
  lemma MonthStartOrder(j: int, k: int)
    ensures MonthStart(j) < MonthStart(k) <==> j < k
  {
    if j < k {
      MonthStartMonotone(j, k);
    } else if k < j {
      MonthStartMonotone(k, j);
    }
  }

  /** Every day lies in the month whose index it has. */
  lemma DayInItsMonth(n: DayNumber)
    ensures MonthStart(MonthIndex(n)) == FirstOfMonth(Year(n), Month(n))
    ensures MonthStart(MonthIndex(n)) + Date(n) - 1 == n
  {
    SplitMonthIndex(Year(n), Month(n));
  }

  /** MakeDay rolls every (year, month, date) over into a real day: the
      result is day `date` counted from the first of the month with index
      12 * year + month, so month 12 is January of the next year and day 0
      is the last day of the previous month. */
  lemma MakeDayRollover(year: int, month: int, date: int)
    ensures MakeDay(year, month, date) == MonthStart(12 * year + month) + date - 1
  {
    var k := 12 * year + month;
    assert k == 12 * (year + month / 12) + month % 12;
    SplitMonthIndex(year + month / 12, month % 12);
  }

  /** A date that is already a real calendar date is left as it is by
      MakeDay. */
  lemma MakeDayOfCalendarDate(year: int, month: int, date: int)
    requires 0 <= month < 12 && 1 <= date <= MonthLength(year, month)
    ensures ToYearMonthDay(MakeDay(year, month, date)) == YearMonthDay(year, month, date)
  {
    SplitMonthIndex(year, month);
    assert month / 12 == 0 && month % 12 == month;
    ToYearMonthDayOfDate(year, month, date);
  }

  /** MakeDay's month overflow: month 12 is January of the next year. */
  lemma MonthOverflow(year: int)
    ensures MakeDay(year, 12, 1) == FirstOfMonth(year + 1, 0)
  {
    MakeDayRollover(year, 12, 1);
    SplitMonthIndex(year + 1, 0);
    assert 12 * year + 12 == 12 * (year + 1) + 0;
  }

  /** MakeDay's day overflow: day 0 is the last day of the month before,
      31 December of the previous year for January. */
  lemma DayZeroOverflow(year: int, month: int)
    requires 0 <= month < 12
    ensures month == 0 ==> ToYearMonthDay(MakeDay(year, month, 0)) == YearMonthDay(year - 1, 11, 31)
    ensures month > 0 ==>
      ToYearMonthDay(MakeDay(year, month, 0)) == YearMonthDay(year, month - 1, MonthLength(year, month - 1))
  {
    if month == 0 {
      DayZeroAt(year, 0, year - 1, 11);
    } else {
      DayZeroAt(year, month, year, month - 1);
    }
  }

  /** Day 0 of month (year, month) is the last day of the month (py, pm)
      just before it. */
  lemma DayZeroAt(year: int, month: int, py: int, pm: int)
    requires 0 <= pm < 12 && 12 * year + month - 1 == 12 * py + pm
    ensures ToYearMonthDay(MakeDay(year, month, 0)) == YearMonthDay(py, pm, MonthLength(py, pm))
  {
    var k := 12 * year + month;
    assert MakeDay(year, month, 0) == MonthStart(k) - 1 by {
      MakeDayRollover(year, month, 0);
    }
    assert (k - 1) / 12 == py && (k - 1) % 12 == pm by {
      SplitMonthIndex(py, pm);
    }
    LastDayBefore(k);
  }

  /** The day before the first of month `k` is the last day of month
      `k - 1`. */
  lemma LastDayBefore(k: int)
    ensures ToYearMonthDay(MonthStart(k) - 1) ==
      YearMonthDay((k - 1) / 12, (k - 1) % 12, MonthLength((k - 1) / 12, (k - 1) % 12))
  {
    MonthStartStep(k - 1);
    ToYearMonthDayOfDate((k - 1) / 12, (k - 1) % 12, MonthLength((k - 1) / 12, (k - 1) % 12));
  }

  /** What `normalizeDate` leaves: the first day of the month of `n`. */
  function StartOfMonth(n: DayNumber): DayNumber {
    MakeDay(Year(n), Month(n), 1)
  }

  /** The first day of the month before the month of `n`. */
  function PrevMonthStart(n: DayNumber): DayNumber {
    MonthStart(MonthIndex(n) - 1)
  }

  /** The first day of the month after the month of `n`. */
  function NextMonthStart(n: DayNumber): DayNumber {
    MonthStart(MonthIndex(n) + 1)
  }

  /** A day number that is the first of its month. */
  predicate IsMonthStart(n: DayNumber) {
    Date(n) == 1
  }

  /** StartOfMonth is the anchor of the month of `n`: day 1, same year and
      month, and the anchor of the month index. */
  lemma StartOfMonthFields(n: DayNumber)
    ensures StartOfMonth(n) == MonthStart(MonthIndex(n))
    ensures ToYearMonthDay(StartOfMonth(n)) == YearMonthDay(Year(n), Month(n), 1)
    ensures StartOfMonth(n) <= n
  {
    DayInItsMonth(n);
    MakeDayOfCalendarDate(Year(n), Month(n), 1);
    SplitMonthIndex(Year(n), Month(n));
  }

  /** The first day of a month is its own anchor. */
  lemma MonthStartIsFixed(n: DayNumber)
    requires IsMonthStart(n)
    ensures StartOfMonth(n) == n
  {
    DayInItsMonth(n);
    StartOfMonthFields(n);
  }

  /** The anchor of month index 12 * year + month is day 1 of that month. */
  lemma MonthStartAt(k: int, year: int, month: int)
    requires 0 <= month < 12 && k == 12 * year + month
    ensures ToYearMonthDay(MonthStart(k)) == YearMonthDay(year, month, 1)
  {
    SplitMonthIndex(year, month);
    MonthStartFields(k);
  }

  /** The month before month (year, month) in calendar terms. */
  lemma MonthBefore(year: int, month: int)
    requires 0 <= month < 12
    ensures month == 0 ==> ToYearMonthDay(MonthStart(12 * year + month - 1)) == YearMonthDay(year - 1, 11, 1)
    ensures month > 0 ==> ToYearMonthDay(MonthStart(12 * year + month - 1)) == YearMonthDay(year, month - 1, 1)
  {
    if month == 0 {
      MonthStartAt(12 * year + month - 1, year - 1, 11);
    } else {
      MonthStartAt(12 * year + month - 1, year, month - 1);
    }
  }

  /** The month after month (year, month) in calendar terms. */
  lemma MonthAfter(year: int, month: int)
    requires 0 <= month < 12
    ensures month == 11 ==> ToYearMonthDay(MonthStart(12 * year + month + 1)) == YearMonthDay(year + 1, 0, 1)
    ensures month < 11 ==> ToYearMonthDay(MonthStart(12 * year + month + 1)) == YearMonthDay(year, month + 1, 1)
  {
    if month == 11 {
      MonthStartAt(12 * year + month + 1, year + 1, 0);
    } else {
      MonthStartAt(12 * year + month + 1, year, month + 1);
    }
  }

  /** The previous month's anchor is exactly one month before: December
      of the previous year when `n` is in January. */
  lemma PrevMonthStartFields(n: DayNumber)
    ensures ToYearMonthDay(PrevMonthStart(n)) ==
      if Month(n) == 0 then YearMonthDay(Year(n) - 1, 11, 1)
      else YearMonthDay(Year(n), Month(n) - 1, 1)
    ensures MonthIndex(PrevMonthStart(n)) == MonthIndex(n) - 1
  {
    MonthBefore(Year(n), Month(n));
    MonthStartFields(MonthIndex(n) - 1);
  }

  /** The next month's anchor is exactly one month after: January of the
      next year when `n` is in December. */
  lemma NextMonthStartFields(n: DayNumber)
    ensures ToYearMonthDay(NextMonthStart(n)) ==
      if Month(n) == 11 then YearMonthDay(Year(n) + 1, 0, 1)
      else YearMonthDay(Year(n), Month(n) + 1, 1)
    ensures MonthIndex(NextMonthStart(n)) == MonthIndex(n) + 1
  {
    MonthAfter(Year(n), Month(n));
    MonthStartFields(MonthIndex(n) + 1);
  }

  /** Stepping back a month and forward again, or forward and back, lands
      on the first day of the month one started from. */
  lemma MonthStepRoundTrip(n: DayNumber)
    ensures NextMonthStart(PrevMonthStart(n)) == StartOfMonth(n)
    ensures PrevMonthStart(NextMonthStart(n)) == StartOfMonth(n)
  {
    PrevMonthStartFields(n);
    NextMonthStartFields(n);
    StartOfMonthFields(n);
  }
}

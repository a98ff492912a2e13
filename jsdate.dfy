/** The JavaScript `Date` objects the date picker mutates in place, and the
    month-navigation and grid helpers built from their setters. A `JsDate`
    holds a whole local day; the time of day is always midnight here. */
module JsDates {
  import opened Calendar

  /** A mutable `Date`, reduced to the local day it denotes. */
  class JsDate {
    var time: DayNumber

    /** `new Date(date)`: a copy of a day. */
    constructor (t: DayNumber)
      ensures time == t
    {
      time := t;
    }

    function GetFullYear(): int
      reads this
    {
      Year(time)
    }

    function GetMonth(): int
      reads this
    {
      Month(time)
    }

    function GetDate(): int
      reads this
    {
      Date(time)
    }

    /** `setDate(d)`: keep the year and month, replace the day of the month,
        overflowing into neighbouring months as ECMA-262 MakeDay does. */
    method SetDate(d: int)
      modifies this
      ensures time == MakeDay(Year(old(time)), Month(old(time)), d)
    {
      time := MakeDay(Year(time), Month(time), d);
    }

    /** `setMonth(m)`: keep the year and the day of the month. */
    method SetMonth(m: int)
      modifies this
      ensures time == MakeDay(Year(old(time)), m, Date(old(time)))
    {
      time := MakeDay(Year(time), m, Date(time));
    }

    /** `setFullYear(y)`: keep the month and the day of the month. */
    method SetFullYear(y: int)
      modifies this
      ensures time == MakeDay(y, Month(old(time)), Date(old(time)))
    {
      time := MakeDay(y, Month(time), Date(time));
    }
  }

  /** `normalizeDate`: move a date to the first day of its month. */
  method NormalizeDate(date: JsDate)
    modifies date
    ensures date.time == StartOfMonth(old(date.time))
    ensures IsMonthStart(date.time) && date.time <= old(date.time)
    ensures MonthIndex(date.time) == MonthIndex(old(date.time))
  {
    date.SetDate(1);
    StartOfMonthFields(old(date.time));
  }

  /** `newNormalizedDate`: a fresh copy moved to the first of its month;
      the argument is left as it was. */
  method NewNormalizedDate(date: JsDate) returns (r: JsDate)
    ensures fresh(r)
    ensures r.time == StartOfMonth(date.time)
    ensures IsMonthStart(r.time) && MonthIndex(r.time) == MonthIndex(date.time)
  {
    r := new JsDate(date.time);
    NormalizeDate(r);
  }

  /** `prevMonth`: day 1 of the month before, December of the previous
      year after January. */
  method PrevMonth(date: JsDate) returns (r: JsDate)
    ensures fresh(r)
    ensures r.time == PrevMonthStart(date.time)
  {
    r := NewNormalizedDate(date);
    ghost var s := r.time;
    if r.GetMonth() == 0 {
      r.SetFullYear(r.GetFullYear() - 1);
      ghost var t := r.time;
      r.SetMonth(11);
      PrevMonthFromJanuary(date.time, s, t, r.time);
    } else {
      r.SetMonth(r.GetMonth() - 1);
      PrevMonthInYear(date.time, s, r.time);
    }
  }

  /** The setter steps of `prevMonth` from January 1: back a year, then to
      December. */
  lemma PrevMonthFromJanuary(n: DayNumber, s: DayNumber, t: DayNumber, u: DayNumber)
    requires IsMonthStart(s) && Month(s) == 0 && MonthIndex(s) == MonthIndex(n)
    requires t == MakeDay(Year(s) - 1, Month(s), Date(s))
    requires u == MakeDay(Year(t), 11, Date(t))
    ensures u == PrevMonthStart(n)
  {
    assert t == MakeDay(Year(s) - 1, 0, 1);
    JanuarySteps(Year(s), t, u);
    assert MonthIndex(n) - 1 == 12 * Year(s) - 1;
  }

  /** From January 1 of `year`: back a year, then to December, is
      December 1 of the year before. */
  lemma JanuarySteps(year: int, t: DayNumber, u: DayNumber)
    requires t == MakeDay(year - 1, 0, 1)
    requires u == MakeDay(Year(t), 11, Date(t))
    ensures u == MonthStart(12 * year - 1)
  {
    FirstDayFields(year - 1, 0);
    FirstDayFields(year - 1, 11);
  }

  /** MakeDay on day 1 of a real month: the anchor of that month, with
      those fields. */
  lemma FirstDayFields(year: int, month: int)
    requires 0 <= month < 12
    ensures MakeDay(year, month, 1) == MonthStart(12 * year + month)
    ensures Year(MakeDay(year, month, 1)) == year && Date(MakeDay(year, month, 1)) == 1
  {
    MakeDayRollover(year, month, 1);
    MonthStartAt(12 * year + month, year, month);
  }

  /** The setter step of `prevMonth` from the first of a later month. */
  lemma PrevMonthInYear(n: DayNumber, s: DayNumber, u: DayNumber)
    requires IsMonthStart(s) && Month(s) != 0 && MonthIndex(s) == MonthIndex(n)
    requires u == MakeDay(Year(s), Month(s) - 1, Date(s))
    ensures u == PrevMonthStart(n)
  {
    MakeDayRollover(Year(s), Month(s) - 1, 1);
    assert MonthIndex(n) - 1 == 12 * Year(s) + Month(s) - 1;
  }

  /** `nextMonth`: day 1 of the month after, January of the next year
      after December. */
  method NextMonth(date: JsDate) returns (r: JsDate)
    ensures fresh(r)
    ensures r.time == NextMonthStart(date.time)
  {
    r := NewNormalizedDate(date);
    ghost var s := r.time;
    if r.GetMonth() == 11 {
      r.SetFullYear(r.GetFullYear() + 1);
      ghost var t := r.time;
      r.SetMonth(0);
      NextMonthFromDecember(date.time, s, t, r.time);
    } else {
      r.SetMonth(r.GetMonth() + 1);
      NextMonthInYear(date.time, s, r.time);
    }
  }

  /** The setter steps of `nextMonth` from December 1: forward a year, then
      to January. */
  lemma NextMonthFromDecember(n: DayNumber, s: DayNumber, t: DayNumber, u: DayNumber)
    requires IsMonthStart(s) && Month(s) == 11 && MonthIndex(s) == MonthIndex(n)
    requires t == MakeDay(Year(s) + 1, Month(s), Date(s))
    requires u == MakeDay(Year(t), 0, Date(t))
    ensures u == NextMonthStart(n)
  {
    assert t == MakeDay(Year(s) + 1, 11, 1);
    DecemberSteps(Year(s), t, u);
    assert MonthIndex(n) + 1 == 12 * Year(s) + 12;
  }

  /** From December 1 of `year`: forward a year, then to January, is
      January 1 of the year after. */
  lemma DecemberSteps(year: int, t: DayNumber, u: DayNumber)
    requires t == MakeDay(year + 1, 11, 1)
    requires u == MakeDay(Year(t), 0, Date(t))
    ensures u == MonthStart(12 * year + 12)
  {
    FirstDayFields(year + 1, 11);
    FirstDayFields(year + 1, 0);
  }

  /** The setter step of `nextMonth` from the first of an earlier month. */
  lemma NextMonthInYear(n: DayNumber, s: DayNumber, u: DayNumber)
    requires IsMonthStart(s) && Month(s) != 11 && MonthIndex(s) == MonthIndex(n)
    requires u == MakeDay(Year(s), Month(s) + 1, Date(s))
    ensures u == NextMonthStart(n)
  {
    MakeDayRollover(Year(s), Month(s) + 1, 1);
    assert MonthIndex(n) + 1 == 12 * Year(s) + Month(s) + 1;
  }

  /** `daysInMonth`: day 0 of the next month is the last day of this one,
      so its day of the month is this month's length. */
  method DaysInMonth(viewingMonth: JsDate) returns (n: int)
    ensures n == MonthLength(Year(viewingMonth.time), Month(viewingMonth.time))
    ensures 28 <= n <= 31
  {
    var lastOfMonth := NextMonth(viewingMonth);
    DayZeroOfNextMonth(viewingMonth.time);
    lastOfMonth.SetDate(0);
    n := lastOfMonth.GetDate();
  }

  /** Day 0 of the month after the month of `t` is the last day of the
      month of `t`. */
  lemma DayZeroOfNextMonth(t: DayNumber)
    ensures var next := NextMonthStart(t);
      ToYearMonthDay(MakeDay(Year(next), Month(next), 0)) ==
        YearMonthDay(Year(t), Month(t), MonthLength(Year(t), Month(t)))
  {
    var next := NextMonthStart(t);
    NextMonthStartFields(t);
    MakeDayRollover(Year(next), Month(next), 0);
    LastDayOfMonth(t);
  }

  /** The day before the next month's anchor is the last day of the month. */
  lemma LastDayOfMonth(t: DayNumber)
    ensures ToYearMonthDay(MonthStart(MonthIndex(t) + 1) - 1) ==
      YearMonthDay(Year(t), Month(t), MonthLength(Year(t), Month(t)))
  {
    LastDayBefore(MonthIndex(t) + 1);
    SplitMonthIndex(Year(t), Month(t));
  }

  /** `daysBeforeMonth`: the weekday of the first of the viewed month, the
      number of blank cells before day 1 in a grid whose rows start on
      Sunday. */
  method DaysBeforeMonth(viewingMonth: JsDate) returns (n: int)
    ensures n == WeekDay(StartOfMonth(viewingMonth.time))
    ensures 0 <= n < 7
  {
    var firstOfMonth := NewNormalizedDate(viewingMonth);
    n := WeekDay(firstOfMonth.time);
  }

  /** The number of grid cells of the fixed six-week calendar view. */
  const CalendarSpace := 42

  /** `daysAfterMonth`: the blank cells after the last day of the month. */
  method DaysAfterMonth(viewingMonth: JsDate) returns (n: int)
    ensures n == CalendarSpace - MonthLength(Year(viewingMonth.time), Month(viewingMonth.time))
                 - WeekDay(StartOfMonth(viewingMonth.time))
    ensures 5 <= n <= 14
  {
    var before := DaysBeforeMonth(viewingMonth);
    var inMonth := DaysInMonth(viewingMonth);
    n := CalendarSpace - inMonth - before;
  }

  /** `calendarDay`: day `day` of the viewed month, counted from its first
      day and overflowing as `setDate` does. */
  method CalendarDay(viewingMonth: JsDate, day: int) returns (r: JsDate)
    ensures fresh(r)
    ensures r.time == StartOfMonth(viewingMonth.time) + day - 1
    ensures 1 <= day <= MonthLength(Year(viewingMonth.time), Month(viewingMonth.time)) ==>
      ToYearMonthDay(r.time) == YearMonthDay(Year(viewingMonth.time), Month(viewingMonth.time), day)
  {
    var t := viewingMonth.time;
    r := NewNormalizedDate(viewingMonth);
    StartOfMonthFields(t);
    r.SetDate(day);
    MakeDayRollover(Year(t), Month(t), day);
    MakeDayRollover(Year(t), Month(t), 1);
    if 1 <= day <= MonthLength(Year(t), Month(t)) {
      MakeDayOfCalendarDate(Year(t), Month(t), day);
    }
  }
}

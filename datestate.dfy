/** Turning the three text fragments into a date, validating it, and
    checking it against the optional bounds; and the pure month-navigation
    and comparison helpers the picker's view relies on. */
module DateState {
  import opened Wrappers
  import opened Calendar
  import opened Fragments

  /** The error messages of the date picker. `NoElement` and
      `UnknownConfigOption` belong to the DOM and styling code. */
  datatype DatePickerError =
    | NoElement
    | DateOutsideRange
    | MinDateAfterMax
    | MaxDateBeforeMin
    | InvalidDate
    | InvalidYear
    | InvalidMonth
    | InvalidDay
    | UnknownConfigOption

  /** The time value of a `Date`: a whole local day, or NaN for an
      invalid date. */
  datatype TimeValue = NaN | Time(day: DayNumber)

  /** ECMA-262 TimeClip: a time value beyond 8.64e15 ms (10^8 days) on
      either side of the epoch is NaN. */
  const MaxTimeDays := 100000000

  function TimeClip(day: DayNumber): (t: TimeValue)
    ensures t.Time? <==> -MaxTimeDays <= day <= MaxTimeDays
    ensures t.Time? ==> t.day == day
  {
    if -MaxTimeDays <= day <= MaxTimeDays then Time(day) else NaN
  }

  /** The `Date` constructor's year rule: a year 0..99 means 1900..1999. */
  function FullYear(year: int): int {
    if 0 <= year <= 99 then 1900 + year else year
  }

  /** `new Date(year, monthIndex, day)` at midnight: MakeDay with its
      rollover of month and day, on the full year, then TimeClip. */
  function NewDate(year: int, monthIndex: int, day: int): (t: TimeValue)
    ensures t == TimeClip(MonthStart(12 * FullYear(year) + monthIndex) + day - 1)
  {
    MakeDayFacts(FullYear(year), monthIndex, day);
    TimeClip(MakeDay(FullYear(year), monthIndex, day))
  }

  /** A real calendar date inside the TimeClip range keeps its fields. */
  lemma NewDateOfCalendarDate(year: int, monthIndex: int, day: int)
    requires 0 <= monthIndex < 12 && 1 <= day <= MonthLength(FullYear(year), monthIndex)
    ensures var t := NewDate(year, monthIndex, day);
      t.Time? ==> ToYearMonthDay(t.day) == YearMonthDay(FullYear(year), monthIndex, day)
  {
    MakeDayFacts(FullYear(year), monthIndex, day);
  }

  lemma MakeDayFacts(year: int, month: int, day: int)
    ensures MakeDay(year, month, day) == MonthStart(12 * year + month) + day - 1
    ensures 0 <= month < 12 && 1 <= day <= MonthLength(year, month) ==>
      ToYearMonthDay(MakeDay(year, month, day)) == YearMonthDay(year, month, day)
  {
    MakeDayRollover(year, month, day);
    if 0 <= month < 12 && 1 <= day <= MonthLength(year, month) {
      MakeDayOfCalendarDate(year, month, day);
    }
  }

  /** `parseDate`: read the year, then the month, then the day, failing at
      the first fragment that is not a number; the month is 1-based. */
  function ParseDate(yearStr: string, monthStr: string, dayStr: string): (r: Result<TimeValue, DatePickerError>)
    ensures ParseNumber(yearStr).None? ==> r == Failure(InvalidYear)
    ensures ParseNumber(yearStr).Some? && ParseNumber(monthStr).None? ==> r == Failure(InvalidMonth)
    ensures ParseNumber(yearStr).Some? && ParseNumber(monthStr).Some? && ParseNumber(dayStr).None? ==>
      r == Failure(InvalidDay)
    ensures r.Success? <==> ParseNumber(yearStr).Some? && ParseNumber(monthStr).Some? && ParseNumber(dayStr).Some?
    ensures r.Success? ==>
      r.value == NewDate(ParseNumber(yearStr).value, ParseNumber(monthStr).value - 1, ParseNumber(dayStr).value)
  {
    match ParseNumber(yearStr)
    case None => Failure(InvalidYear)
    case Some(year) =>
      match ParseNumber(monthStr)
      case None => Failure(InvalidMonth)
      case Some(month) =>
        match ParseNumber(dayStr)
        case None => Failure(InvalidDay)
        case Some(day) => Success(NewDate(year, month - 1, day))
  }

  /** `isValidDate`: a date whose time value is not NaN. */
  predicate IsValidDate(date: TimeValue): (b: bool)
    ensures b <==> date != NaN
  {
    date.Time?
  }

  /** The reference meaning of the bounds: inclusive, and a missing bound
      imposes nothing. */
  predicate InRange(day: DayNumber, min: Option<DayNumber>, max: Option<DayNumber>) {
    (min.None? || min.value <= day) && (max.None? || day <= max.value)
  }

  /** `a > date` on time values: every comparison with NaN is false. */
  predicate After(a: DayNumber, date: TimeValue) {
    date.Time? && a > date.day
  }

  /** `a < date` on time values. */
  predicate Before(a: DayNumber, date: TimeValue) {
    date.Time? && a < date.day
  }

  /** `dateWithinRange`: the bounds are inclusive and optional; a NaN date
      passes, because no comparison with NaN holds. */
  function DateWithinRange(date: TimeValue, min: Option<DayNumber>, max: Option<DayNumber>): (r: bool)
    ensures date.NaN? ==> r
    ensures date.Time? ==> (r <==> InRange(date.day, min, max))
  {
    if min.Some? && After(min.value, date) then false
    else if max.Some? && Before(max.value, date) then false
    else true
  }

  /** `checkState`: parse, then reject an invalid date, then reject a date
      outside the bounds, each with its own error, in that order. */
  function CheckState(year: string, month: string, day: string, min: Option<DayNumber>, max: Option<DayNumber>)
    : (r: Result<DayNumber, DatePickerError>)
    ensures ParseDate(year, month, day).Failure? ==> r == Failure(ParseDate(year, month, day).error)
    ensures ParseDate(year, month, day) == Success(NaN) ==> r == Failure(InvalidDate)
    ensures ParseDate(year, month, day).Success? && ParseDate(year, month, day).value.Time? ==>
      var n := ParseDate(year, month, day).value.day;
      r == if InRange(n, min, max) then Success(n) else Failure(DateOutsideRange)
    ensures r.Success? ==> InRange(r.value, min, max) && -MaxTimeDays <= r.value <= MaxTimeDays
  {
    match ParseDate(year, month, day)
    case Failure(e) => Failure(e)
    case Success(date) =>
      if !IsValidDate(date) then Failure(InvalidDate)
      else if !DateWithinRange(date, min, max) then Failure(DateOutsideRange)
      else Success(date.day)
  }

  /** The fragments of a well-formed entry are independent of the bounds:
      the bounds only decide between the date and DATE_OUTSIDE_RANGE. */
  lemma CheckStateBounds(year: string, month: string, day: string, min: Option<DayNumber>, max: Option<DayNumber>)
    ensures CheckState(year, month, day, min, max).Success? <==>
      CheckState(year, month, day, None, None).Success? &&
      InRange(CheckState(year, month, day, None, None).value, min, max)
    ensures CheckState(year, month, day, min, max).Success? ==>
      CheckState(year, month, day, min, max) == CheckState(year, month, day, None, None)
  {
  }

  /** The fragments the picker writes for day `n`: the year padded to four
      digits, the 1-based month and the day of the month padded to two. */
  function DayFragments(n: DayNumber): (r: (string, string, string))
    ensures |r.0| >= 4 && |r.1| == 2 && |r.2| == 2
  {
    DayFragmentsDigits(n);
    (YearToString(Year(n)), MonthToString(Month(n) + 1), DayToString(Date(n)))
  }

  /** The month and the day are written as two fixed digits each, and a
      year 0..9999 as four. */
  lemma DayFragmentsDigits(n: DayNumber)
    ensures 0 <= Year(n) < 10000 ==> YearToString(Year(n)) == FixedDigits(Year(n), 4)
    ensures MonthToString(Month(n) + 1) == FixedDigits(Month(n) + 1, 2)
    ensures DayToString(Date(n)) == FixedDigits(Date(n), 2)
  {
    var ymd := ToYearMonthDay(n);
    assert 0 <= ymd.month < 12 && 1 <= ymd.date <= 31;
  }

  /** The fragments of a day parse to the year, the month index and the day
      of the month they were written from, unless the year is one of
      -99..-1. */
  lemma ParseDayFragments(n: DayNumber)
    requires !(-99 <= Year(n) < 0)
    ensures ParseDate(DayFragments(n).0, DayFragments(n).1, DayFragments(n).2) ==
      Success(NewDate(Year(n), Month(n), Date(n)))
  {
    var year, month, date := Year(n), Month(n), Date(n);
    assert 0 <= month && 1 <= date by {
      var ymd := ToYearMonthDay(n);
      assert 0 <= ymd.month < 12 && 1 <= ymd.date;
    }
    assert DayFragments(n) == (YearToString(year), MonthToString(month + 1), DayToString(date));
    ParseFields(year, month, date);
  }

  lemma ParseFields(year: int, month: int, date: int)
    requires !(-99 <= year < 0) && 0 <= month && 1 <= date
    ensures ParseDate(YearToString(year), MonthToString(month + 1), DayToString(date)) ==
      Success(NewDate(year, month, date))
  {
    var ys, ms, ds := YearToString(year), MonthToString(month + 1), DayToString(date);
    assert ParseNumber(ys) == Some(year) by { YearRoundTrip(year); }
    assert ParseNumber(ms) == Some(month + 1) by { FragmentRoundTrip(month + 1, 2); }
    assert ParseNumber(ds) == Some(date) by { FragmentRoundTrip(date, 2); }
    ParseNumbers(ys, ms, ds, year, month + 1, date);
  }

  lemma ParseNumbers(ys: string, ms: string, ds: string, year: int, month: int, date: int)
    requires ParseNumber(ys) == Some(year) && ParseNumber(ms) == Some(month) && ParseNumber(ds) == Some(date)
    ensures ParseDate(ys, ms, ds) == Success(NewDate(year, month - 1, date))
  {
  }

  /** Read back through `checkState`, the fragments of a day in a year
      outside -99..99 name that same day: the day round-trips, subject only
      to the bounds. */
  lemma ReparseDayFragments(n: DayNumber, min: Option<DayNumber>, max: Option<DayNumber>)
    requires -MaxTimeDays <= n <= MaxTimeDays && (Year(n) >= 100 || Year(n) <= -100)
    ensures CheckState(DayFragments(n).0, DayFragments(n).1, DayFragments(n).2, min, max) ==
      if InRange(n, min, max) then Success(n) else Failure(DateOutsideRange)
  {
    ParseDayFragments(n);
    NewDateOfFields(n);
  }

  /** `new Date` on the fields of a day is that day, unless its year is
      0..99. */
  lemma NewDateOfFields(n: DayNumber)
    requires -MaxTimeDays <= n <= MaxTimeDays && !(0 <= Year(n) <= 99)
    ensures NewDate(Year(n), Month(n), Date(n)) == Time(n)
  {
    DayInItsMonth(n);
    NewDateAt(Year(n), Month(n), Date(n), MonthIndex(n), n);
  }

  /** `new Date` on a year outside 0..99 is the day MakeDay names. */
  lemma NewDateAt(year: int, month: int, date: int, k: int, n: DayNumber)
    requires !(0 <= year <= 99) && -MaxTimeDays <= n <= MaxTimeDays
    requires k == 12 * year + month && MonthStart(k) + date - 1 == n
    ensures NewDate(year, month, date) == Time(n)
  {
    assert 12 * FullYear(year) + month == k;
  }

  /** The fragments of a day in a year 0..99 name a day of 1900..1999
      instead: a valid date, later than the day written, and the same
      calendar day whenever that day exists in the later year. */
  lemma ReparseEarlyDayFragments(n: DayNumber)
    requires 0 <= Year(n) < 100
    ensures var r := CheckState(DayFragments(n).0, DayFragments(n).1, DayFragments(n).2, None, None);
      r.Success? && r.value > n && r.value == MakeDay(1900 + Year(n), Month(n), Date(n)) &&
      (Date(n) <= MonthLength(1900 + Year(n), Month(n)) ==>
         ToYearMonthDay(r.value) == YearMonthDay(1900 + Year(n), Month(n), Date(n)))
  {
    ParseDayFragments(n);
    EarlyYearMoves(n);
    var year, month, date := Year(n), Month(n), Date(n);
    var t := NewDate(year, month, date);
    assert FullYear(year) == 1900 + year;
    assert CheckState(DayFragments(n).0, DayFragments(n).1, DayFragments(n).2, None, None) == Success(t.day);
    if date <= MonthLength(1900 + year, month) {
      NewDateOfCalendarDate(year, month, date);
    }
  }

  /** `new Date` on the fields of a day of year 0..99 gives a valid, later
      day. */
  lemma EarlyYearMoves(n: DayNumber)
    requires 0 <= Year(n) < 100
    ensures var t := NewDate(Year(n), Month(n), Date(n));
      t.Time? && t.day > n && t.day == MakeDay(1900 + Year(n), Month(n), Date(n))
  {
    DayFields(n);
    EarlyYearAt(Year(n), Month(n), Date(n), n);
  }

  /** The fields of day `n` and where `n` lies in its month. */
  lemma DayFields(n: DayNumber)
    ensures 0 <= Month(n) < 12 && 1 <= Date(n) <= 31
    ensures MonthStart(12 * Year(n) + Month(n)) + Date(n) - 1 == n
  {
    var ymd := ToYearMonthDay(n);
    assert 0 <= ymd.month < 12 && 1 <= ymd.date <= MonthLength(ymd.year, ymd.month);
    DayInItsMonth(n);
  }

  lemma EarlyYearAt(year: int, month: int, date: int, n: DayNumber)
    requires 0 <= year < 100 && 0 <= month < 12 && 1 <= date <= 31
    requires MonthStart(12 * year + month) + date - 1 == n
    ensures var t := NewDate(year, month, date);
      t.Time? && t.day > n && t.day == MakeDay(1900 + year, month, date)
  {
    EarlyYearLater(year, month, date, n);
    MakeDayRollover(1900 + year, month, date);
    EarlyYearNewDate(year, month, date);
  }

  /** Moving a day 1900 years on moves it later. */
  lemma EarlyYearLater(year: int, month: int, date: int, n: DayNumber)
    requires MonthStart(12 * year + month) + date - 1 == n
    ensures MonthStart(12 * (1900 + year) + month) + date - 1 > n
  {
    MonthStartMonotone(12 * year + month, 12 * (1900 + year) + month);
  }

  /** `new Date` on a year 0..99 names a day of 1900..1999, inside the
      TimeClip range. */
  lemma EarlyYearNewDate(year: int, month: int, date: int)
    requires 0 <= year < 100 && 0 <= month < 12 && 1 <= date <= 31
    ensures NewDate(year, month, date) == Time(MonthStart(12 * (1900 + year) + month) + date - 1)
  {
    assert 12 * FullYear(year) + month == 12 * (1900 + year) + month;
    EarlyYearInRange(1900 + year, month, date);
  }

  /** Days of the years 1900..1999 are well inside the TimeClip range. */
  lemma EarlyYearInRange(year: int, month: int, date: int)
    requires 1900 <= year < 2000 && 0 <= month < 12 && 1 <= date <= 31
    ensures -MaxTimeDays <= MonthStart(12 * year + month) + date - 1 <= MaxTimeDays
  {
    DayFromYearBounds(year);
    CumDaysMonotone(year, 0, month);
    CumDaysMonotone(year, month, 12);
    CumDaysStep(year, 0);
    DayFromYearStep(year);
    assert 0 <= CumDays(year, month) <= 366;
    SplitMonthIndex(year, month);
  }

  /** The fragments of a day in the years -99..-1 do not parse: the sign
      lands after the zero padding, so `checkState` fails on the year. */
  lemma ReparseNegativeDayFragments(n: DayNumber, min: Option<DayNumber>, max: Option<DayNumber>)
    requires -99 <= Year(n) < 0
    ensures CheckState(DayFragments(n).0, DayFragments(n).1, DayFragments(n).2, min, max) == Failure(InvalidYear)
  {
    YearRoundTrip(Year(n));
  }

  /** `prevMonthViewable`: with no minimum, or with the minimum's month
      strictly before the viewed month, compared on month anchors. */
  function PrevMonthViewable(viewingMonth: DayNumber, min: Option<DayNumber>): (b: bool)
    ensures b <==> min.None? || MonthIndex(min.value) < MonthIndex(viewingMonth)
  {
    if min.None? then true
    else
      StartOfMonthFields(viewingMonth);
      StartOfMonthFields(min.value);
      MonthStartOrder(MonthIndex(min.value), MonthIndex(viewingMonth));
      StartOfMonth(min.value) < StartOfMonth(viewingMonth)
  }

  /** `nextMonthViewable`: with no maximum, or with the viewed month
      strictly before the maximum's month. */
  function NextMonthViewable(viewingMonth: DayNumber, max: Option<DayNumber>): (b: bool)
    ensures b <==> max.None? || MonthIndex(viewingMonth) < MonthIndex(max.value)
  {
    if max.None? then true
    else
      StartOfMonthFields(viewingMonth);
      StartOfMonthFields(max.value);
      MonthStartOrder(MonthIndex(viewingMonth), MonthIndex(max.value));
      StartOfMonth(viewingMonth) < StartOfMonth(max.value)
  }

  /** Navigation that the view enables never leaves the months of the
      bounds: from a month at or after the minimum's month, an enabled step
      back stays at or after it, and likewise forward for the maximum. */
  lemma NavigationStaysInBounds(viewingMonth: DayNumber, min: Option<DayNumber>, max: Option<DayNumber>)
    ensures PrevMonthViewable(viewingMonth, min) && min.Some? ==>
      MonthIndex(min.value) <= MonthIndex(PrevMonthStart(viewingMonth))
    ensures NextMonthViewable(viewingMonth, max) && max.Some? ==>
      MonthIndex(NextMonthStart(viewingMonth)) <= MonthIndex(max.value)
  {
    PrevMonthStartFields(viewingMonth);
    NextMonthStartFields(viewingMonth);
  }

  /** `datesEqual`: two dates that are both present and at the same time. */
  function DatesEqual(date1: Option<DayNumber>, date2: Option<DayNumber>): (r: bool)
    ensures r <==> date1.Some? && date1 == date2
  {
    if date1.None? || date2.None? then false else date1.value == date2.value
  }
}

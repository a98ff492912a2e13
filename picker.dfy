/** The `DatePicker` object: the entered fragments, the selected date, the
    viewed month, the optional bounds, the popup and disabled flags and the
    change callback, with the handlers and public methods that update them.

    Rendering (`update`) changes none of these fields and is left out; the
    callback is identified by a number, and each invocation is recorded,
    with its argument, in the ghost log `calls`. */
module Picker {
  import opened Wrappers
  import opened Calendar
  import opened Fragments
  import opened JsDates
  import opened DateState

  /** Which callback function is registered. */
  type CallbackId = nat

  class DatePicker {
    var open: bool
    var state: Option<DayNumber>
    var year: string
    var month: string
    var day: string
    var viewingMonth: JsDate
    var minDate: Option<DayNumber>
    var maxDate: Option<DayNumber>
    var disabled: bool
    var callback: Option<CallbackId>
    /** The argument of every callback invocation so far, oldest first. */
    ghost var calls: seq<Option<DayNumber>>

    /** What every handler and public method keeps: the bounds strictly
        ordered, the fragments at least their padded widths, and the viewed
        month held as its first day. */
    ghost predicate Valid()
      reads this, viewingMonth
    {
      && (minDate.Some? && maxDate.Some? ==> minDate.value < maxDate.value)
      && |year| >= 4 && |month| == 2 && |day| == 2
      && IsMonthStart(viewingMonth.time)
    }

    /** The picker for "today" `now`: nothing selected, the fragments show
        today, the view shows today's month, no bounds and no callback. */
    constructor (now: DayNumber)
      ensures Valid() && fresh(viewingMonth)
      ensures !open && state == None && !disabled && callback == None && calls == []
      ensures (year, month, day) == DayFragments(now)
      ensures viewingMonth.time == StartOfMonth(now)
      ensures minDate == None && maxDate == None
    {
      var today := new JsDate(now);
      var first := NewNormalizedDate(today);
      open := false;
      state := None;
      var (yearStr, monthStr, dayStr) := DayFragments(today.time);
      year, month, day := yearStr, monthStr, dayStr;
      viewingMonth := first;
      minDate := None;
      maxDate := None;
      disabled := false;
      callback := None;
      calls := [];
    }

    /** `get`: the most recently accepted date. */
    function Get(): (r: Option<DayNumber>)
      reads this
      ensures r == state
    {
      state
    }

    /** `isSelected`: whether `get` returns a date. */
    predicate IsSelected(): (b: bool)
      reads this
      ensures b <==> Get() != None
    {
      state.Some?
    }

    /** `isValid`: the fragments parse to a valid date; exactly the entries
        that `checkState` accepts when no bounds are set. */
    function IsValid(): (b: bool)
      reads this
      ensures b <==> CheckState(year, month, day, None, None).Success?
    {
      match ParseDate(year, month, day)
      case Failure(_) => false
      case Success(date) => IsValidDate(date)
    }

    /** `isWithinRange`: the fragments parse, and the date is within the
        bounds; a parsed but invalid date counts as within them. */
    function IsWithinRange(): (b: bool)
      reads this
      ensures b <==> ParseDate(year, month, day).Success? &&
                     DateWithinRange(ParseDate(year, month, day).value, minDate, maxDate)
      ensures IsValid() ==> (b <==> CheckState(year, month, day, minDate, maxDate).Success?)
    {
      match ParseDate(year, month, day)
      case Failure(_) => false
      case Success(date) => DateWithinRange(date, minDate, maxDate)
    }

    /** `updateState`: recompute the selection from the given fragments or
        the stored ones, null on any error, then call the callback with the
        new selection whether or not it changed. */
    method UpdateState(newYear: Option<string>, newMonth: Option<string>, newDay: Option<string>)
      requires Valid()
      modifies this`state, this`calls
      ensures Valid()
      ensures state ==
        CheckState(newYear.GetOr(year), newMonth.GetOr(month), newDay.GetOr(day), minDate, maxDate).ToOption()
      ensures calls == old(calls) + if callback.Some? then [state] else []
    {
      var y := newYear.GetOr(year);
      var m := newMonth.GetOr(month);
      var d := newDay.GetOr(day);
      var checked := CheckState(y, m, d, minDate, maxDate);
      if checked.Success? {
        state := Some(checked.value);
      } else {
        state := None;
      }
      if callback.Some? {
        calls := calls + [state];
      }
    }

    /** The year field's input handler: store the edited fragment, then
        recompute the selection from it. */
    method InputYear(typed: string)
      requires Valid()
      modifies this`year, this`state, this`calls
      ensures Valid()
      ensures year == NewYearValue(old(year), typed)
      ensures state.Some? <==> IsValid() && IsWithinRange()
      ensures state == CheckState(year, month, day, minDate, maxDate).ToOption()
      ensures calls == old(calls) + if callback.Some? then [state] else []
    {
      var newValue := NewYearValue(year, typed);
      year := newValue;
      UpdateState(Some(newValue), None, None);
    }

    /** The month field's input handler. */
    method InputMonth(typed: string)
      requires Valid()
      modifies this`month, this`state, this`calls
      ensures Valid()
      ensures month == NewMonthValue(old(month), typed)
      ensures state.Some? <==> IsValid() && IsWithinRange()
      ensures state == CheckState(year, month, day, minDate, maxDate).ToOption()
      ensures calls == old(calls) + if callback.Some? then [state] else []
    {
      var newValue := NewMonthValue(month, typed);
      month := newValue;
      UpdateState(None, Some(newValue), None);
    }

    /** The day field's input handler. */
    method InputDay(typed: string)
      requires Valid()
      modifies this`day, this`state, this`calls
      ensures Valid()
      ensures day == NewDayValue(old(day), typed)
      ensures state.Some? <==> IsValid() && IsWithinRange()
      ensures state == CheckState(year, month, day, minDate, maxDate).ToOption()
      ensures calls == old(calls) + if callback.Some? then [state] else []
    {
      var newValue := NewDayValue(day, typed);
      day := newValue;
      UpdateState(None, None, Some(newValue));
    }

    /** The click handler of the button for day `date` of the viewed month:
        select that day, write its fragments, close the popup and call the
        callback. */
    method ClickDay(date: int)
      requires Valid()
      requires 1 <= date <= MonthLength(Year(viewingMonth.time), Month(viewingMonth.time))
      modifies this`state, this`open, this`year, this`month, this`day, this`calls
      ensures Valid()
      ensures state == Some(viewingMonth.time + date - 1)
      ensures ToYearMonthDay(state.value) ==
        YearMonthDay(Year(viewingMonth.time), Month(viewingMonth.time), date)
      ensures !open
      ensures (year, month, day) == DayFragments(state.value)
      ensures calls == old(calls) + if callback.Some? then [state] else []
    {
      var thisDay := CalendarDay(viewingMonth, date);
      MonthStartIsFixed(viewingMonth.time);
      SelectDay(thisDay.time);
    }

    /** Select day `n`, close the popup, write the day's fragments and call
        the callback: what a day click does once it has its day. */
    method SelectDay(n: DayNumber)
      requires Valid()
      modifies this`state, this`open, this`year, this`month, this`day, this`calls
      ensures Valid()
      ensures state == Some(n) && !open
      ensures (year, month, day) == DayFragments(n)
      ensures calls == old(calls) + if callback.Some? then [state] else []
    {
      var (yearStr, monthStr, dayStr) := DayFragments(n);
      state, open := Some(n), false;
      year, month, day := yearStr, monthStr, dayStr;
      if callback.Some? {
        calls := calls + [state];
      }
    }

    /** `set`: clear the selection, or select a valid date within the
        bounds; anything else is refused and changes nothing. */
    method Set(date: Option<TimeValue>) returns (outcome: Outcome<DatePickerError>)
      requires Valid()
      modifies this`state
      ensures Valid()
      ensures date.None? ==> outcome == Pass && state == None
      ensures date == Some(NaN) ==> outcome == Fail(InvalidDate) && state == old(state)
      ensures date.Some? && date.value.Time? ==>
        if InRange(date.value.day, minDate, maxDate) then outcome == Pass && state == Some(date.value.day)
        else outcome == Fail(DateOutsideRange) && state == old(state)
    {
      if date.None? {
        state := None;
        outcome := Pass;
      } else if !IsValidDate(date.value) {
        outcome := Fail(InvalidDate);
      } else if !DateWithinRange(date.value, minDate, maxDate) {
        outcome := Fail(DateOutsideRange);
      } else {
        state := Some(date.value.day);
        outcome := Pass;
      }
    }

    /** `setDateMin`: clear the minimum, or set a valid one strictly before
        the maximum; a refused minimum leaves the bounds as they were. */
    method SetDateMin(dateMin: Option<TimeValue>) returns (outcome: Outcome<DatePickerError>)
      requires Valid()
      modifies this`minDate
      ensures Valid()
      ensures dateMin.None? ==> outcome == Pass && minDate == None
      ensures dateMin == Some(NaN) ==> outcome == Fail(InvalidDate) && minDate == old(minDate)
      ensures dateMin.Some? && dateMin.value.Time? ==>
        if maxDate.Some? && dateMin.value.day >= maxDate.value then
          outcome == Fail(MinDateAfterMax) && minDate == old(minDate)
        else outcome == Pass && minDate == Some(dateMin.value.day)
    {
      if dateMin.None? {
        minDate := None;
        outcome := Pass;
      } else if !IsValidDate(dateMin.value) {
        outcome := Fail(InvalidDate);
      } else if maxDate.Some? && dateMin.value.day >= maxDate.value {
        outcome := Fail(MinDateAfterMax);
      } else {
        minDate := Some(dateMin.value.day);
        outcome := Pass;
      }
    }

    /** `setDateMax`: clear the maximum, or set a valid one strictly after
        the minimum; a refused maximum leaves the bounds as they were. */
    method SetDateMax(dateMax: Option<TimeValue>) returns (outcome: Outcome<DatePickerError>)
      requires Valid()
      modifies this`maxDate
      ensures Valid()
      ensures dateMax.None? ==> outcome == Pass && maxDate == None
      ensures dateMax == Some(NaN) ==> outcome == Fail(InvalidDate) && maxDate == old(maxDate)
      ensures dateMax.Some? && dateMax.value.Time? ==>
        if minDate.Some? && dateMax.value.day <= minDate.value then
          outcome == Fail(MaxDateBeforeMin) && maxDate == old(maxDate)
        else outcome == Pass && maxDate == Some(dateMax.value.day)
    {
      if dateMax.None? {
        maxDate := None;
        outcome := Pass;
      } else if !IsValidDate(dateMax.value) {
        outcome := Fail(InvalidDate);
      } else if minDate.Some? && dateMax.value.day <= minDate.value {
        outcome := Fail(MaxDateBeforeMin);
      } else {
        maxDate := Some(dateMax.value.day);
        outcome := Pass;
      }
    }

    /** `setOpen`. */
    method SetOpen(isOpen: bool)
      requires Valid()
      modifies this`open
      ensures Valid() && open == isOpen
    {
      open := isOpen;
    }

    /** `setDisabled`. */
    method SetDisabled(isDisabled: bool)
      requires Valid()
      modifies this`disabled
      ensures Valid() && disabled == isDisabled
    {
      disabled := isDisabled;
    }

    /** `onChange`: register the one callback, replacing any earlier one. */
    method OnChange(cb: Option<CallbackId>)
      requires Valid()
      modifies this`callback
      ensures Valid() && callback == cb
    {
      callback := cb;
    }

    /** The open button's click handler. */
    method ClickOpen()
      requires Valid()
      modifies this`open
      ensures Valid() && open
    {
      open := true;
    }

    /** The handler for a click outside the open popup. */
    method ClickOutside()
      requires Valid()
      modifies this`open
      ensures Valid() && !open
    {
      open := false;
    }

    /** The previous-month button's click handler: view the month before. */
    method ClickPrevMonth()
      requires Valid()
      modifies this`viewingMonth
      ensures Valid() && fresh(viewingMonth)
      ensures viewingMonth.time == PrevMonthStart(old(viewingMonth.time))
      ensures MonthIndex(viewingMonth.time) == MonthIndex(old(viewingMonth.time)) - 1
    {
      PrevMonthStartFields(viewingMonth.time);
      viewingMonth := PrevMonth(viewingMonth);
    }

    /** The next-month button's click handler: view the month after. */
    method ClickNextMonth()
      requires Valid()
      modifies this`viewingMonth
      ensures Valid() && fresh(viewingMonth)
      ensures viewingMonth.time == NextMonthStart(old(viewingMonth.time))
      ensures MonthIndex(viewingMonth.time) == MonthIndex(old(viewingMonth.time)) + 1
    {
      NextMonthStartFields(viewingMonth.time);
      viewingMonth := NextMonth(viewingMonth);
    }
  }
}

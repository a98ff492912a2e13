# Date picker model

This project models the core of a small JavaScript date-picker widget (`datepicker/datepicker.js`).
A user enters a date by editing three fixed-width text fragments: a four-digit year, a two-digit month
and a two-digit day. Each keystroke rewrites the edited fragment and recomputes the selected date.
The date is then checked for validity and against optional minimum and maximum dates. A popup
calendar shows one month at a time, with buttons to step to the previous and next month and one
button per day of the month.

The model has six modules:

- `Wrappers`: `Option`, `Result` and `Outcome` (pass, or fail with an error).
- `Calendar`: ECMA-262 day arithmetic on whole days counted from 1 January 1970 (`DayNumber`).
  It covers DayFromYear, YearFromDay, the month table, MakeDay with its month and day rollover, and
  WeekDay. `ToYearMonthDay` decodes a day number; it is proved to give the only calendar date with
  that day number. The lemmas on this module are what the navigation and grid helpers rely on.
- `Fragments`: the fragment editors `newYearValue`, `newMonthValue` and `newDayValue`, and the
  formatters `yearToString`, `monthToString` and `dayToString`. They are written on JavaScript's
  `String(n)`, `padStart`, `slice(-k)` and `Number(text)`. Besides the editors, the module proves
  what typing digits does:
  - a typed non-negative number is re-padded to its fixed-width digits;
  - a typed negative number keeps its sign only while it fits: "-5" in the year gives "00-5", which
    is then not a number;
  - typing into a full fragment scrolls the digits to the left;
  - a fragment that is already well formed is left as it is.
- `JsDates`: the mutable `Date` objects, reduced to a class with one field `time`, and the setters the
  code calls (`setDate`, `setMonth`, `setFullYear`). The in-place helpers are methods, each proved
  against a specification function: `normalizeDate`, `newNormalizedDate`, `prevMonth`, `nextMonth`,
  `daysBeforeMonth`, `daysInMonth`, `daysAfterMonth` and `calendarDay`.
- `DateState`: `parseDate` (including the `Date` constructor's rule that years 0..99 mean
  1900..1999, and TimeClip), `isValidDate`, `dateWithinRange`, `checkState`,
  `prevMonthViewable`, `nextMonthViewable` and `datesEqual`. It also proves what happens when the
  fragments a day click writes are read back:
  - for years from 100 on, and for years from -100 down, they name the same day;
  - for years 0..99 they name a later day in 1900..1999;
  - for the years -99..-1 they fail with INVALID_YEAR, because the minus sign lands after the
    zero padding ("00-5").
- `Picker`: the `DatePicker` object as a class, with:
  - its fields;
  - the public methods `get`, `set`, `isSelected`, `isValid`, `isWithinRange`, `setDateMin`,
    `setDateMax`, `setOpen`, `setDisabled` and `onChange`;
  - `updateState`;
  - the DOM event handlers that change state: the three fragment inputs, the day buttons, the open
    button, a click outside the popup, and the month buttons.

  The class invariant `Valid()` holds after the constructor and is kept by every method. It says
  that the bounds are strictly ordered, the fragments have at least their padded widths, and the
  viewed month is held as its first day.

Inputs from outside the program become parameters:
- the current time, for the constructor;
- the typed text, for the input handlers;
- the clicked day, for a day button.

The registered callback is a number (`CallbackId`). Each time it is called, its argument is
appended to the ghost log `calls`.

## Model

| member | source | states |
|---|---|---|
| Fragments.NatToString | datepicker/datepicker.js:94 | `String(n)` of a non-negative number is a non-empty digit string whose value is `n` |
| Fragments.FragmentToString | datepicker/datepicker.js:93-103 | `String(n).padStart(width, "0")` is at least `width` long; for a negative number it is not a digit string |
| Fragments.YearToString | datepicker/datepicker.js:93-95 | at least 4 characters; for 0..9999 exactly the four fixed-width digits; not digits for a negative year |
| Fragments.MonthToString | datepicker/datepicker.js:97-99 | at least 2 characters; for 0..99 exactly the two fixed-width digits |
| Fragments.DayToString | datepicker/datepicker.js:101-103 | at least 2 characters; for 0..99 exactly the two fixed-width digits |
| Fragments.PaddedIsFixed | datepicker/datepicker.js:93-103 | a number below 10^width is padded to exactly its `width` fixed digits |
| Fragments.ParseNumber | datepicker/datepicker.js:110 | `Number(text)` is a number exactly for a digit string or a sign followed by digits: the digits' value, negated after a minus; "" is 0; text starting with any other character is NaN |
| Fragments.NumberRoundTrip | datepicker/datepicker.js:94 | `Number(String(n))` is `n` for every integer |
| Fragments.FragmentRoundTrip | datepicker/datepicker.js:93-103 | `Number` of a padded number gives the number back, unless it is negative and needs padding, which makes it NaN |
| Fragments.YearRoundTrip | datepicker/datepicker.js:93-95 | `Number(yearToString(y))` is `y`, except NaN for the years -99..-1 |
| Fragments.TakeLastPadStart | datepicker/datepicker.js:116-117 | padding a digit string and keeping its last `width` characters gives the `width` low-order digits of its value |
| Fragments.NewFragmentValue | datepicker/datepicker.js:105-148 | empty text gives all zeros; text that is not a number keeps the old fragment; a number gives exactly `width` characters; typed digits give digits, equal to the typed text padded and cut to its last `width` characters |
| Fragments.NewYearValue | datepicker/datepicker.js:105-118 | the same cases with width 4: "0000", the old year, 4 characters for a number, or the typed digits padded and cut to 4 |
| Fragments.NewMonthValue | datepicker/datepicker.js:120-133 | the same cases with width 2: "00", the old month, 2 characters for a number, or the typed digits padded and cut to 2 |
| Fragments.NewDayValue | datepicker/datepicker.js:135-148 | the same cases with width 2: "00", the old day, 2 characters for a number, or the typed digits padded and cut to 2 |
| Fragments.FragmentValueOfNumber | datepicker/datepicker.js:110-117 | a typed non-negative number, with or without "+", gives the fixed-width digits of its value, so only its value modulo 10^width matters |
| Fragments.NegativeEdit | datepicker/datepicker.js:110-117 | a typed negative number shorter than the field is written after zeros and is then NaN ("-5" gives "00-5"); exactly as wide, it is kept and reads back as itself; wider, the sign is cut off and the last `width` digits remain |
| Fragments.ShiftInDigit | datepicker/datepicker.js:382-389 | typing one digit at the end of a full fragment drops its leftmost digit and appends the new one |
| Fragments.RenormalizeFragment | datepicker/datepicker.js:110-117 | a full-width digit fragment is left unchanged by the editor |
| Fragments.TypingScrolls | datepicker/datepicker.js:382-389 | typing any digits one by one into a full fragment leaves the last `width` characters of the old fragment followed by the typed digits |
| Fragments.TypingYearExample | datepicker/datepicker.js:382-389 | clearing the year field and typing 2, 0, 2, 4 shows "2024" |
| Calendar.ToYearMonthDay | datepicker/datepicker.js:691-693 | the year, month and day `getFullYear`, `getMonth` and `getDate` read are a real calendar date with that day number |
| Calendar.MakeDayRollover | datepicker/datepicker.js:303 | `setDate`, `setMonth` and `setFullYear` roll over: the result is day `date` counted from the first of month index 12 * year + month, for any month and day |
| Calendar.MakeDayOfCalendarDate | datepicker/datepicker.js:169 | a real calendar date is constructed as itself |
| Calendar.MonthOverflow | datepicker/datepicker.js:169 | month 12 rolls over into January of the next year |
| Calendar.DayZeroOverflow | datepicker/datepicker.js:290 | day 0 of a month is the last day of the month before: 31 December of the year before for January |
| Calendar.StartOfMonthFields | datepicker/datepicker.js:206-212 | day 1 of a month has the same year and month, is the anchor of its month index and is not later than the day |
| Calendar.MonthStartOrder | datepicker/datepicker.js:263-281 | first days of months compare exactly as the month indices do |
| Calendar.PrevMonthStartFields | datepicker/datepicker.js:233-244 | the month before is December of the year before for January, else the previous month of the same year; its month index is one less |
| Calendar.NextMonthStartFields | datepicker/datepicker.js:246-257 | the month after is January of the next year for December, else the next month of the same year; its month index is one more |
| Calendar.MonthStepRoundTrip | datepicker/datepicker.js:233-257 | a step back then forward, or forward then back, returns to the first of the month |
| JsDates.JsDate.constructor | datepicker/datepicker.js:215 | `new Date(date)` copies the day |
| JsDates.JsDate.SetDate | datepicker/datepicker.js:207 | keeps the year and month and sets the day by MakeDay, with overflow |
| JsDates.JsDate.SetMonth | datepicker/datepicker.js:238 | keeps the year and the day of the month and sets the month by MakeDay |
| JsDates.JsDate.SetFullYear | datepicker/datepicker.js:237 | keeps the month and the day of the month and sets the year by MakeDay |
| JsDates.NormalizeDate | datepicker/datepicker.js:206-212 | moves the date in place to the first of its own month, never later, same month index |
| JsDates.NewNormalizedDate | datepicker/datepicker.js:214-218 | a fresh copy on the first of the argument's month |
| JsDates.PrevMonth | datepicker/datepicker.js:233-244 | a fresh date on the first of the previous month |
| JsDates.PrevMonthFromJanuary | datepicker/datepicker.js:236-238 | on 1 January, stepping the year back and setting December gives the first of the previous month |
| JsDates.PrevMonthInYear | datepicker/datepicker.js:239-241 | in a later month, setting the month one less gives the first of the previous month |
| JsDates.NextMonth | datepicker/datepicker.js:246-257 | a fresh date on the first of the next month |
| JsDates.NextMonthFromDecember | datepicker/datepicker.js:249-251 | on 1 December, stepping the year on and setting January gives the first of the next month |
| JsDates.NextMonthInYear | datepicker/datepicker.js:252-254 | in an earlier month, setting the month one more gives the first of the next month |
| JsDates.DayZeroOfNextMonth | datepicker/datepicker.js:289-291 | day 0 of the next month is the last day of the viewed month |
| JsDates.DaysInMonth | datepicker/datepicker.js:288-292 | the length of the viewed month (28..31, 29 in February of a leap year) |
| JsDates.DaysBeforeMonth | datepicker/datepicker.js:283-286 | the weekday (0..6, Sunday first) of the first of the viewed month |
| JsDates.DaysAfterMonth | datepicker/datepicker.js:294-299 | 42 minus the month length minus the blanks before it, always 5..14 |
| JsDates.CalendarDay | datepicker/datepicker.js:301-305 | day `day` counted from the first of the viewed month; for 1..length it is that calendar day of that month |
| DateState.TimeClip | datepicker/datepicker.js:169 | a day is kept exactly when it lies within 10^8 days of the epoch, otherwise NaN |
| DateState.NewDate | datepicker/datepicker.js:169 | `new Date(year, monthIndex, day)` is the TimeClip of day `day` counted from the first of month 12 * FullYear(year) + monthIndex |
| DateState.NewDateOfCalendarDate | datepicker/datepicker.js:169 | `new Date` of a real calendar date (years 0..99 read as 1900..1999) whose day is inside the TimeClip range keeps its fields |
| DateState.ParseDate | datepicker/datepicker.js:150-170 | INVALID_YEAR, then INVALID_MONTH, then INVALID_DAY at the first fragment that is not a number; success exactly when all three are numbers, with the month made 0-based |
| DateState.IsValidDate | datepicker/datepicker.js:172-174 | a date is valid exactly when its time value is not NaN |
| DateState.DateWithinRange | datepicker/datepicker.js:176-186 | a NaN date passes; a valid date passes exactly when it is within the inclusive, optional bounds |
| DateState.CheckState | datepicker/datepicker.js:188-200 | parse errors pass through; NaN gives INVALID_DATE; a valid date is returned when within the bounds, else DATE_OUTSIDE_RANGE; a success is within the bounds and inside the TimeClip range |
| DateState.CheckStateBounds | datepicker/datepicker.js:188-200 | the bounds only decide between the date and DATE_OUTSIDE_RANGE: a success with bounds is a success without them that lies within them |
| DateState.DayFragments | datepicker/datepicker.js:691-693 | the fragments a day click writes have the widths the fields keep: at least 4 characters for the year, exactly 2 for the 1-based month and for the day |
| DateState.DayFragmentsDigits | datepicker/datepicker.js:691-693 | those fragments are the month and the day as two fixed digits each, and a year 0..9999 as its four fixed digits |
| DateState.ParseDayFragments | datepicker/datepicker.js:691-693 | the fragments written for a day whose year is not one of -99..-1 parse to `new Date` of its fields |
| DateState.NewDateOfFields | datepicker/datepicker.js:169 | `new Date` of the fields of a day whose year is outside 0..99, inside the clip range, is that day |
| DateState.ReparseDayFragments | datepicker/datepicker.js:691-708 | in a year outside -99..99, the fragments a day click writes are read back by `checkState` as that day, or as DATE_OUTSIDE_RANGE |
| DateState.EarlyYearMoves | datepicker/datepicker.js:169 | `new Date` of the fields of a day in a year 0..99 is a valid day of 1900..1999, later than the original |
| DateState.ReparseEarlyDayFragments | datepicker/datepicker.js:691-708 | in a year 0..99, the written fragments are read back as the same fields in year 1900 + year, and as that calendar day whenever it exists there |
| DateState.ReparseNegativeDayFragments | datepicker/datepicker.js:691-708 | in the years -99..-1, the written fragments fail with INVALID_YEAR whatever the bounds |
| DateState.PrevMonthViewable | datepicker/datepicker.js:263-271 | true exactly when there is no minimum or the minimum's month is before the viewed month |
| DateState.NextMonthViewable | datepicker/datepicker.js:273-281 | true exactly when there is no maximum or the viewed month is before the maximum's month |
| DateState.NavigationStaysInBounds | datepicker/datepicker.js:263-281 | a step the view allows never leaves the months of the bounds |
| DateState.DatesEqual | datepicker/datepicker.js:311-314 | true exactly when both dates are present and equal |
| Picker.DatePicker.constructor | datepicker/datepicker.js:326-343 | closed, nothing selected, no bounds, no callback, not disabled; fragments of today; today's month in view; invariant established |
| Picker.DatePicker.Get | datepicker/datepicker.js:804-806 | the selection |
| Picker.DatePicker.IsSelected | datepicker/datepicker.js:838-840 | whether `get` returns a date |
| Picker.DatePicker.IsValid | datepicker/datepicker.js:847-863 | true exactly when `checkState` accepts the fragments with no bounds |
| Picker.DatePicker.IsWithinRange | datepicker/datepicker.js:870-886 | true exactly when the fragments parse and the date passes `dateWithinRange`; for a valid entry, exactly when `checkState` accepts it with the bounds |
| Picker.DatePicker.UpdateState | datepicker/datepicker.js:773-794 | the selection becomes the `checkState` result on the given or stored fragments, or nothing on error; a registered callback receives the new selection |
| Picker.DatePicker.InputYear | datepicker/datepicker.js:382-389 | the year becomes the edited fragment; the selection is present exactly when `isValid` and `isWithinRange` both hold, and is the checked date |
| Picker.DatePicker.InputMonth | datepicker/datepicker.js:408-415 | the same for the month fragment |
| Picker.DatePicker.InputDay | datepicker/datepicker.js:431-438 | the same for the day fragment |
| Picker.DatePicker.ClickDay | datepicker/datepicker.js:688-713 | selects that day of the viewed month, closes the popup, writes the day's fragments and calls the callback with the selection |
| Picker.DatePicker.SelectDay | datepicker/datepicker.js:689-712 | once the day is known: it becomes the selection, the popup closes, the day's fragments are written and a registered callback receives the selection |
| Picker.DatePicker.Set | datepicker/datepicker.js:815-831 | null clears the selection; an invalid date fails with INVALID_DATE; a date outside the bounds fails with DATE_OUTSIDE_RANGE; a failure leaves the selection unchanged; otherwise the date is selected |
| Picker.DatePicker.SetDateMin | datepicker/datepicker.js:895-911 | null clears; invalid gives INVALID_DATE; at or after the maximum gives MIN_DATE_AFTER_MAX, leaving the bound unchanged; otherwise set |
| Picker.DatePicker.SetDateMax | datepicker/datepicker.js:920-936 | null clears; invalid gives INVALID_DATE; at or before the minimum gives MAX_DATE_BEFORE_MIN, leaving the bound unchanged; otherwise set |
| Picker.DatePicker.SetOpen | datepicker/datepicker.js:943-946 | sets the popup flag |
| Picker.DatePicker.SetDisabled | datepicker/datepicker.js:953-956 | sets the disabled flag |
| Picker.DatePicker.OnChange | datepicker/datepicker.js:963-965 | replaces the callback |
| Picker.DatePicker.ClickOpen | datepicker/datepicker.js:455-458 | opens the popup |
| Picker.DatePicker.ClickOutside | datepicker/datepicker.js:477-480 | closes the popup |
| Picker.DatePicker.ClickPrevMonth | datepicker/datepicker.js:494-497 | views a fresh date on the first of the previous month, one month index less |
| Picker.DatePicker.ClickNextMonth | datepicker/datepicker.js:523-526 | views a fresh date on the first of the next month, one month index more |

## Left out

- Rendering (`update`, `create`, the calendar grid's DOM nodes, styling and CSS classes) is not modelled. Rendering changes none of the modelled fields, so `update` calls are omitted.
- The DOM is not modelled: element lookup, `contentEditable`, caret handling (`goToEnd`), the text-selection helpers, and the `ClickOutsideHandle` listener class. So the errors NO_ELEMENT and UNKNOWN_CONFIG_OPTION are never raised.
- `configureGlobalDatePickers`, `main.js` and `monthName` are not part of this model; they are styling, page wiring and a table lookup.
- Time of day, time zones and daylight saving are not modelled. Every date is a whole local day, and local time is taken to be UTC. `normalizeDate`'s `setHours(0)`, `setMinutes(0)`, `setSeconds(0)` and `setMilliseconds(0)` have no effect when there is no time of day.
- The constructor reads the clock twice (`new Date()` and `thisMonth()`); the model takes one `now` for both. It does not model the two reads landing on different days at midnight. `calendarToday` is not modelled.
- NewFragmentValue: JavaScript's `Number` is modelled only for decimal digit strings with an optional sign. The source also accepts surrounding white space, a decimal point, an exponent and `0x`/`0b`/`0o` prefixes, all of which the model treats as not a number. Precision loss above 2^53 and `Infinity` are also not modelled.
- NatToString: `String(n)` switches to exponent form from 10^21 on, so typing a number of 22 or more digits writes the tail of "…e+21" into the fragment. The model writes the number's last digits instead.
- NewYearValue, NewMonthValue, NewDayValue: same restrictions on `Number` and `String` as NewFragmentValue.
- JsDates.JsDate.SetDate, JsDates.JsDate.SetMonth, JsDates.JsDate.SetFullYear: their TimeClip is not modelled. So stepping the view beyond 10^8 days from the epoch never yields an invalid date.
- Set, SetDateMin, SetDateMax take a time value or nothing. The source's check that the argument is an instance of `Date` at all is not modelled.
- Aliasing of `Date` objects is not modelled. The source stores the clicked day's `Date` object itself as the selection and hands it to the callback. `set`, `setDateMin` and `setDateMax` (lines 827, 907 and 932) likewise store the caller's own `Date` object. The model stores days, so it does not capture a later mutation of such an object by the caller or the callback. In the source, that mutation can also break the ordering of the minimum before the maximum, which `Valid()` states for the model.
- The callback's own behaviour, including re-entrant calls into the picker, is not modelled; only its argument is recorded.
- ClickDay: the source disables the buttons of days outside the bounds, and the model does not require the clicked day to be within them. The day number is required to be 1..length of the month, matching the buttons the source creates.
- InputYear, InputMonth, InputDay, ClickOpen: while the picker is disabled, `update` (lines 754-760) turns off the three inputs and the open button, so these handlers cannot fire then. The model allows them in any state.
- ClickPrevMonth, ClickNextMonth: the source turns off the month buttons when `prevMonthViewable` or `nextMonthViewable` is false. The model allows the step anyway; `NavigationStaysInBounds` states what the enabled steps keep.

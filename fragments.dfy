/** The three fixed-width text fragments of the date input (year, month,
    day) and the functions that rewrite them on every keystroke.

    JavaScript's `Number(text)` is modelled for strings of decimal digits
    with an optional sign (the empty string is 0, as in JavaScript); every
    other string is "not a number". `String(n)` is modelled for integers. */
module Fragments {
  import opened Wrappers

  predicate IsDigit(c: char) {
    '0' <= c <= '9'
  }

  predicate IsDigits(s: string) {
    forall i :: 0 <= i < |s| ==> IsDigit(s[i])
  }

  function DigitValue(c: char): nat
    requires IsDigit(c)
  {
    (c as int) - ('0' as int)
  }

  function DigitChar(d: nat): (c: char)
    requires d < 10
    ensures IsDigit(c) && DigitValue(c) == d
  {
    (('0' as int) + d) as char
  }

  /** The number a string of decimal digits denotes. */
  function DigitsValue(s: string): nat
    requires IsDigits(s)
  {
    if s == [] then 0 else 10 * DigitsValue(s[..|s| - 1]) + DigitValue(s[|s| - 1])
  }

  /** A sign followed by at least one digit. */
  predicate IsSignedDigits(s: string) {
    |s| >= 2 && (s[0] == '-' || s[0] == '+') && IsDigits(s[1..])
  }

  /** `Number(text)`: the integer that a digit string, or a sign and a digit
      string, denotes; None for "not a number". */
  function ParseNumber(s: string): (r: Option<int>)
    ensures r.Some? <==> IsDigits(s) || IsSignedDigits(s)
    ensures IsDigits(s) ==> r == Some(DigitsValue(s))
    ensures IsSignedDigits(s) && s[0] == '-' ==> r == Some(-(DigitsValue(s[1..]) as int))
    ensures IsSignedDigits(s) && s[0] == '+' ==> r == Some(DigitsValue(s[1..]))
    ensures s != [] && !IsDigit(s[0]) && s[0] != '-' && s[0] != '+' ==> r == None
  {
    if IsDigits(s) then Some(DigitsValue(s))
    else if IsSignedDigits(s) then
      if s[0] == '-' then Some(-(DigitsValue(s[1..]) as int)) else Some(DigitsValue(s[1..]))
    else None
  }

  /** `String(n)` of a non-negative integer: its decimal digits without
      leading zeros. */
  function NatToString(n: nat): (s: string)
    ensures IsDigits(s) && 1 <= |s| && DigitsValue(s) == n
  {
    if n < 10 then [DigitChar(n)]
    else
      var s := NatToString(n / 10) + [DigitChar(n % 10)];
      assert s[..|s| - 1] == NatToString(n / 10);
      s
  }

  /** `String(n)` of an integer: a minus sign before the digits of a
      negative number. */
  function NumberToString(n: int): string {
    if n < 0 then "-" + NatToString(-n) else NatToString(n)
  }

  function Zeros(k: nat): (s: string)
    ensures |s| == k && IsDigits(s)
  {
    seq(k, _ => '0')
  }

  /** `s.padStart(width, "0")`. */
  function PadStart(s: string, width: nat): string {
    if |s| >= width then s else Zeros(width - |s|) + s
  }

  /** `s.slice(-k)` for k >= 1: the last `k` characters, or all of `s` when
      it is shorter. */
  function TakeLast(s: string, k: nat): string {
    if |s| <= k then s else s[|s| - k..]
  }

  /** The `width` rightmost decimal digits of `n`, with leading zeros: the
      reference definition of a fixed-width digit field. */
  function FixedDigits(n: nat, width: nat): (s: string)
    ensures |s| == width && IsDigits(s)
  {
    if width == 0 then [] else FixedDigits(n / 10, width - 1) + [DigitChar(n % 10)]
  }

  /** `yearToString`, `monthToString`, `dayToString`: `String(n)` padded
      with zeros to `width`. */
  function FragmentToString(n: int, width: nat): (s: string)
    ensures |s| >= width
    ensures n < 0 ==> !IsDigits(s)
  {
    var digits := NumberToString(n);
    assert n < 0 ==> !IsDigit(digits[0]);
    var s := PadStart(digits, width);
    assert n < 0 ==> s[|s| - |digits|] == digits[0];
    s
  }

  /** The zeros that padding adds do not change the value of a digit string. */
  lemma {:induction false} ZerosValue(k: nat, s: string)
    requires IsDigits(s)
    ensures IsDigits(Zeros(k) + s) && DigitsValue(Zeros(k) + s) == DigitsValue(s)
    decreases |s|
  {
    var t := Zeros(k) + s;
    if s == [] {
      ZerosValueNil(k);
      assert t == Zeros(k);
    } else {
      var p := s[..|s| - 1];
      ZerosValue(k, p);
      assert t[..|t| - 1] == Zeros(k) + p;
    }
  }

  lemma {:induction false} ZerosValueNil(k: nat)
    ensures DigitsValue(Zeros(k)) == 0
  {
    if k > 0 {
      ZerosValueNil(k - 1);
      assert Zeros(k)[..k - 1] == Zeros(k - 1);
    }
  }

  /** The rightmost `width` characters of a zero-padded digit string are the
      fixed-width digits of its value. */
  lemma {:induction false} TakeLastPadStart(s: string, width: nat)
    requires IsDigits(s)
    ensures TakeLast(PadStart(s, width), width) == FixedDigits(DigitsValue(s), width)
    decreases |s|, width
  {
    if width == 0 {
      assert TakeLast(PadStart(s, 0), 0) == [];
    } else if s == [] {
      assert PadStart(s, width) == Zeros(width);
      FixedDigitsZero(width);
    } else {
      var p := s[..|s| - 1];
      TakeLastPadStart(p, width - 1);
      TakeLastPadStartStep(s, width);
    }
  }

  /** The inductive step of `TakeLastPadStart`: appending a digit to the
      string appends it to the fixed-width field. */
  lemma TakeLastPadStartStep(s: string, width: nat)
    requires IsDigits(s) && s != [] && width >= 1
    requires IsDigits(s[..|s| - 1])
    requires TakeLast(PadStart(s[..|s| - 1], width - 1), width - 1) ==
      FixedDigits(DigitsValue(s[..|s| - 1]), width - 1)
    ensures TakeLast(PadStart(s, width), width) == FixedDigits(DigitsValue(s), width)
  {
    var p, c := s[..|s| - 1], s[|s| - 1];
    PadStartOfSnoc(s, width);
    TakeLastSnoc(PadStart(p, width - 1), c, width);
    FixedDigitsOfSnoc(s, width);
  }

  lemma PadStartOfSnoc(s: string, width: nat)
    requires IsDigits(s) && s != [] && width >= 1
    ensures PadStart(s, width) == PadStart(s[..|s| - 1], width - 1) + [s[|s| - 1]]
  {
    DigitsSnoc(s);
    PadStartSnoc(s[..|s| - 1], s[|s| - 1], width);
  }

  lemma FixedDigitsOfSnoc(s: string, width: nat)
    requires IsDigits(s) && s != [] && width >= 1
    ensures IsDigits(s[..|s| - 1])
    ensures FixedDigits(DigitsValue(s[..|s| - 1]), width - 1) + [s[|s| - 1]] ==
      FixedDigits(DigitsValue(s), width)
  {
    DigitsSnoc(s);
    FixedDigitsSnoc(DigitsValue(s[..|s| - 1]), DigitValue(s[|s| - 1]), width);
  }

  /** A non-empty digit string is its prefix followed by its last digit. */
  lemma DigitsSnoc(s: string)
    requires IsDigits(s) && s != []
    ensures s == s[..|s| - 1] + [s[|s| - 1]]
    ensures IsDigits(s[..|s| - 1]) && IsDigit(s[|s| - 1])
    ensures DigitsValue(s) == 10 * DigitsValue(s[..|s| - 1]) + DigitValue(s[|s| - 1])
    ensures DigitChar(DigitValue(s[|s| - 1])) == s[|s| - 1]
  {
    var p, c := s[..|s| - 1], s[|s| - 1];
    assert s == p + [c];
    assert forall i | 0 <= i < |p| :: p[i] == s[i];
    DigitRoundTrip(c);
  }

  lemma DigitRoundTrip(c: char)
    requires IsDigit(c)
    ensures DigitChar(DigitValue(c)) == c
  {
  }

  lemma PadStartSnoc(p: string, c: char, width: nat)
    requires width >= 1
    ensures PadStart(p + [c], width) == PadStart(p, width - 1) + [c]
  {
    if |p| + 1 < width {
      assert Zeros(width - |p| - 1) + (p + [c]) == (Zeros(width - 1 - |p|) + p) + [c];
    }
  }

  lemma TakeLastSnoc(t: string, c: char, width: nat)
    requires width >= 1
    ensures TakeLast(t + [c], width) == TakeLast(t, width - 1) + [c]
  {
    if |t| + 1 > width {
      assert (t + [c])[|t| + 1 - width..] == t[|t| - (width - 1)..] + [c];
    }
  }

  lemma FixedDigitsSnoc(v: nat, d: nat, width: nat)
    requires d < 10 && width >= 1
    ensures FixedDigits(10 * v + d, width) == FixedDigits(v, width - 1) + [DigitChar(d)]
  {
    assert (10 * v + d) / 10 == v && (10 * v + d) % 10 == d;
  }

  lemma {:induction false} FixedDigitsZero(width: nat)
    ensures FixedDigits(0, width) == Zeros(width)
  {
    if width > 0 {
      FixedDigitsZero(width - 1);
    }
  }

  /** `newYearValue`, `newMonthValue`, `newDayValue` (width 4, 2, 2): empty
      text resets the fragment to zeros, text that is not a number keeps the
      old fragment, and a number is written back padded and cut to its
      rightmost `width` characters. */
  function NewFragmentValue(previous: string, typed: string, width: nat): (r: string)
    requires width >= 1
    ensures typed == [] ==> r == Zeros(width)
    ensures ParseNumber(typed).None? ==> r == previous
    ensures ParseNumber(typed).Some? ==> |r| == width
    ensures typed != [] && IsDigits(typed) ==>
      IsDigits(r) && r == TakeLast(PadStart(typed, width), width)
  {
    if typed == [] then
      assert FragmentToString(0, width) == Zeros(width);
      FragmentToString(0, width)
    else
      match ParseNumber(typed)
      case None => previous
      case Some(v) =>
        if IsDigits(typed) then
          DigitEdit(typed, width);
          TakeLast(FragmentToString(v, width), width)
        else
          TakeLast(FragmentToString(v, width), width)
  }

  lemma DigitEdit(typed: string, width: nat)
    requires width >= 1 && IsDigits(typed)
    ensures var r := TakeLast(FragmentToString(DigitsValue(typed), width), width);
      IsDigits(r) && r == TakeLast(PadStart(typed, width), width)
  {
    TakeLastPadStart(typed, width);
    TakeLastPadStart(NatToString(DigitsValue(typed)), width);
  }

  function YearToString(year: int): (s: string)
    ensures |s| >= 4
    ensures 0 <= year < 10000 ==> s == FixedDigits(year, 4)
    ensures year < 0 ==> !IsDigits(s)
  {
    PaddedIsFixed(year, 4);
    FragmentToString(year, 4)
  }

  function MonthToString(month: int): (s: string)
    ensures |s| >= 2
    ensures 0 <= month < 100 ==> s == FixedDigits(month, 2)
  {
    PaddedIsFixed(month, 2);
    FragmentToString(month, 2)
  }

  function DayToString(day: int): (s: string)
    ensures |s| >= 2
    ensures 0 <= day < 100 ==> s == FixedDigits(day, 2)
  {
    PaddedIsFixed(day, 2);
    FragmentToString(day, 2)
  }

  function Pow10(k: nat): nat {
    if k == 0 then 1 else 10 * Pow10(k - 1)
  }

  /** A number below 10^width is written in at most `width` digits. */
  lemma {:induction false} NatToStringLength(n: nat, width: nat)
    requires 1 <= width && n < Pow10(width)
    ensures |NatToString(n)| <= width
    decreases width
  {
    if n >= 10 {
      assert width >= 2;
      NatToStringLength(n / 10, width - 1);
    }
  }

  /** A number from 10^k on is written in more than `k` digits. */
  lemma {:induction false} NatToStringLengthBelow(n: nat, k: nat)
    requires Pow10(k) <= n
    ensures |NatToString(n)| > k
    decreases k
  {
    if k > 0 {
      NatToStringLengthBelow(n / 10, k - 1);
    }
  }

  /** Padding a short enough number gives its fixed-width digits. */
  lemma PaddedIsFixed(n: int, width: nat)
    requires 1 <= width
    ensures 0 <= n < Pow10(width) ==> FragmentToString(n, width) == FixedDigits(n, width)
  {
    if 0 <= n < Pow10(width) {
      NatToStringLength(n, width);
      TakeLastPadStart(NatToString(n), width);
    }
  }

  /** `Number(String(n))` is `n`. */
  lemma NumberRoundTrip(n: int)
    ensures ParseNumber(NumberToString(n)) == Some(n)
  {
    var t := NumberToString(n);
    if n < 0 {
      assert t[1..] == NatToString(-n);
      assert !IsDigit(t[0]);
    }
  }

  /** A padded number reads back as itself unless it is negative and needs
      padding: then the zeros come before the sign and it is not a number. */
  lemma FragmentRoundTrip(n: int, width: nat)
    ensures n >= 0 || |NumberToString(n)| >= width ==> ParseNumber(FragmentToString(n, width)) == Some(n)
    ensures n < 0 && |NumberToString(n)| < width ==> ParseNumber(FragmentToString(n, width)) == None
  {
    var t := NumberToString(n);
    var s := FragmentToString(n, width);
    NumberRoundTrip(n);
    if n >= 0 && |t| < width {
      ZerosValue(width - |t|, t);
    } else if n < 0 && |t| < width {
      assert s[0] == '0';
    }
  }

  /** The year fragment the picker writes reads back as the year, except
      for the years -99..-1, whose sign lands after the zero padding. */
  lemma YearRoundTrip(year: int)
    ensures ParseNumber(YearToString(year)) == if -99 <= year < 0 then None else Some(year)
  {
    assert YearToString(year) == FragmentToString(year, 4);
    FragmentRoundTrip(year, 4);
    if -99 <= year < 0 {
      ShortNegativeYear(year);
    } else if year < 0 {
      LongNegativeYear(year);
    }
  }

  lemma ShortNegativeYear(year: int)
    requires -99 <= year < 0
    ensures |NumberToString(year)| < 4
  {
    var m: nat := -year;
    assert m < Pow10(2) by {
      assert Pow10(2) == 100;
    }
    NatToStringLength(m, 2);
    assert NumberToString(year) == "-" + NatToString(m);
  }

  lemma LongNegativeYear(year: int)
    requires year <= -100
    ensures |NumberToString(year)| >= 4
  {
    var m: nat := -year;
    assert Pow10(2) <= m by {
      assert Pow10(2) == 100;
    }
    NatToStringLengthBelow(m, 2);
    assert NumberToString(year) == "-" + NatToString(m);
  }

  function NewYearValue(oldYear: string, newYear: string): (r: string)
    ensures newYear == "" ==> r == "0000"
    ensures ParseNumber(newYear).None? ==> r == oldYear
    ensures ParseNumber(newYear).Some? ==> |r| == 4
    ensures newYear != "" && IsDigits(newYear) ==>
      IsDigits(r) && r == TakeLast(PadStart(newYear, 4), 4)
  {
    assert Zeros(4) == "0000";
    NewFragmentValue(oldYear, newYear, 4)
  }

  function NewMonthValue(oldMonth: string, newMonth: string): (r: string)
    ensures newMonth == "" ==> r == "00"
    ensures ParseNumber(newMonth).None? ==> r == oldMonth
    ensures ParseNumber(newMonth).Some? ==> |r| == 2
    ensures newMonth != "" && IsDigits(newMonth) ==>
      IsDigits(r) && r == TakeLast(PadStart(newMonth, 2), 2)
  {
    assert Zeros(2) == "00";
    NewFragmentValue(oldMonth, newMonth, 2)
  }

  function NewDayValue(oldDay: string, newDay: string): (r: string)
    ensures newDay == "" ==> r == "00"
    ensures ParseNumber(newDay).None? ==> r == oldDay
    ensures ParseNumber(newDay).Some? ==> |r| == 2
    ensures newDay != "" && IsDigits(newDay) ==>
      IsDigits(r) && r == TakeLast(PadStart(newDay, 2), 2)
  {
    assert Zeros(2) == "00";
    NewFragmentValue(oldDay, newDay, 2)
  }

  /** A typed non-negative number, with or without a plus sign, gives the
      fixed-width digits of its value, so only its value modulo 10^width
      matters. */
  lemma FragmentValueOfNumber(previous: string, typed: string, width: nat)
    requires width >= 1 && typed != [] && ParseNumber(typed).Some? && ParseNumber(typed).value >= 0
    ensures NewFragmentValue(previous, typed, width) == FixedDigits(ParseNumber(typed).value, width)
  {
    TakeLastPadStart(NatToString(ParseNumber(typed).value), width);
  }

  /** A typed negative number keeps its sign only while it fits: shorter
      than the field, the sign lands after the zero padding and the fragment
      stops being a number; exactly as wide, the fragment is the number;
      wider, the sign is cut off with the leading digits. */
  lemma NegativeEdit(previous: string, typed: string, width: nat)
    requires width >= 1 && ParseNumber(typed).Some? && ParseNumber(typed).value < 0
    ensures var v := ParseNumber(typed).value;
      var r := NewFragmentValue(previous, typed, width);
      var t := NumberToString(v);
      (|t| < width ==> r == Zeros(width - |t|) + t && ParseNumber(r).None?) &&
      (|t| == width ==> r == t && ParseNumber(r) == Some(v)) &&
      (|t| > width ==> r == FixedDigits(-v, width))
  {
    var v := ParseNumber(typed).value;
    assert !IsDigits(typed);
    assert typed != [];
    assert NewFragmentValue(previous, typed, width) == TakeLast(FragmentToString(v, width), width);
    NegativeField(v, width);
  }

  lemma NegativeField(v: int, width: nat)
    requires width >= 1 && v < 0
    ensures var r := TakeLast(FragmentToString(v, width), width);
      var t := NumberToString(v);
      (|t| < width ==> r == Zeros(width - |t|) + t && ParseNumber(r).None?) &&
      (|t| == width ==> r == t && ParseNumber(r) == Some(v)) &&
      (|t| > width ==> r == FixedDigits(-v, width))
  {
    var t := NumberToString(v);
    if |t| < width {
      NegativePadded(v, width);
    } else if |t| == width {
      NumberRoundTrip(v);
    } else {
      NegativeCut(v, width);
    }
  }

  lemma NegativePadded(v: int, width: nat)
    requires v < 0 && |NumberToString(v)| < width
    ensures var t := NumberToString(v);
      TakeLast(FragmentToString(v, width), width) == Zeros(width - |t|) + t
    ensures ParseNumber(TakeLast(FragmentToString(v, width), width)).None?
  {
    var s := FragmentToString(v, width);
    assert |s| == width;
    FragmentRoundTrip(v, width);
  }

  lemma NegativeCut(v: int, width: nat)
    requires v < 0 && |NumberToString(v)| > width
    ensures TakeLast(FragmentToString(v, width), width) == FixedDigits(-v, width)
  {
    var d := NatToString(-v);
    assert FragmentToString(v, width) == ['-'] + d;
    TakeLastSigned(d, width);
  }

  lemma TakeLastSigned(d: string, width: nat)
    requires IsDigits(d) && |d| >= width
    ensures TakeLast(['-'] + d, width) == FixedDigits(DigitsValue(d), width)
  {
    TakeLastCons('-', d, width);
    assert PadStart(d, width) == d;
    TakeLastPadStart(d, width);
  }

  /** Typing one more digit at the end of a full fragment scrolls it left:
      the leftmost digit drops out and the new digit enters on the right. */
  lemma ShiftInDigit(fragment: string, c: char, width: nat)
    requires width >= 1 && |fragment| == width && IsDigits(fragment) && IsDigit(c)
    ensures NewFragmentValue(fragment, fragment + [c], width) == fragment[1..] + [c]
  {
    var t := fragment + [c];
    assert IsDigits(t);
    assert TakeLast(PadStart(t, width), width) == t[1..];
    assert t[1..] == fragment[1..] + [c];
  }

  /** Re-normalising a well-formed fragment leaves it as it is. */
  lemma RenormalizeFragment(previous: string, fragment: string, width: nat)
    requires width >= 1 && |fragment| == width && IsDigits(fragment)
    ensures NewFragmentValue(previous, fragment, width) == fragment
  {
    assert TakeLast(PadStart(fragment, width), width) == fragment;
  }

  /** The fragment after typing the digits of `keys` one at a time at the
      end of the editable field, which shows the current fragment. */
  function TypeDigits(fragment: string, keys: string, width: nat): string
    requires width >= 1
    decreases |keys|
  {
    if keys == [] then fragment
    else TypeDigits(NewFragmentValue(fragment, fragment + [keys[0]], width), keys[1..], width)
  }

  /** Typed digits scroll through a full fragment: it always shows the
      rightmost `width` digits of everything it held and everything typed. */
  lemma {:induction false} TypingScrolls(fragment: string, keys: string, width: nat)
    requires width >= 1 && |fragment| == width && IsDigits(fragment) && IsDigits(keys)
    ensures TypeDigits(fragment, keys, width) == TakeLast(fragment + keys, width)
    decreases |keys|
  {
    if keys != [] {
      var next := fragment[1..] + [keys[0]];
      ShiftInDigit(fragment, keys[0], width);
      assert TypeDigits(fragment, keys, width) == TypeDigits(next, keys[1..], width);
      assert IsDigits(next);
      TypingScrolls(next, keys[1..], width);
      Regroup(fragment, keys);
      TakeLastCons(fragment[0], fragment[1..] + keys, width);
    }
  }

  lemma Regroup(fragment: string, keys: string)
    requires |fragment| >= 1 && |keys| >= 1
    ensures (fragment[1..] + [keys[0]]) + keys[1..] == fragment[1..] + keys
    ensures fragment + keys == [fragment[0]] + (fragment[1..] + keys)
  {
    assert keys == [keys[0]] + keys[1..];
  }

  lemma TakeLastCons(c: char, t: string, width: nat)
    requires |t| >= width
    ensures TakeLast([c] + t, width) == TakeLast(t, width)
  {
    assert ([c] + t)[|t| + 1 - width..] == t[|t| - width..];
  }

  /** Clearing the year "2023" and typing 2, 0, 2, 4 gives "2024". */
  lemma TypingYearExample()
    ensures TypeDigits(NewYearValue("2023", ""), "2024", 4) == "2024"
  {
    var cleared := NewYearValue("2023", "");
    var keys := "2024";
    assert cleared == "0000";
    assert IsDigits(cleared) && IsDigits(keys);
    TypingScrolls(cleared, keys, 4);
    assert TakeLast(cleared + keys, 4) == keys;
  }
}

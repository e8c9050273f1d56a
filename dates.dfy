/**
 * `RandomDatePicker`: the year and month validators, the dates of one month as the
 * standard calendar's week-padded month iterator yields them, and the choice of one of
 * those dates. The random draws are parameters; the choice is any element of the list.
 */
module Dates {
  import opened Wrappers
  import Text

  /** A proleptic Gregorian date, as `datetime.date` holds it. */
  datatype Date = Date(year: int, month: int, day: int)

  /** `datetime.MINYEAR <= year <= datetime.MAXYEAR`. */
  predicate YearInRange(year: int) {
    1 <= year <= 9999
  }

  predicate IsLeap(year: int) {
    year % 4 == 0 && (year % 100 != 0 || year % 400 == 0)
  }

  /** The length of a month, for a month number in 1..12. */
  function DaysInMonth(year: int, month: int): (n: int)
    requires 1 <= month <= 12
    ensures 28 <= n <= 31
    ensures n == 29 <==> month == 2 && IsLeap(year)
  {
    if month == 2 then (if IsLeap(year) then 29 else 28)
    else if month == 4 || month == 6 || month == 9 || month == 11 then 30
    else 31
  }

  /** The number of days in the months of `year` before `month`. */
  function DaysBeforeMonth(year: int, month: int): int
    requires 1 <= month <= 12
  {
    var table := [0, 31, 59, 90, 120, 151, 181, 212, 243, 273, 304, 334];
    table[month - 1] + (if month > 2 && IsLeap(year) then 1 else 0)
  }

  /** The proleptic Gregorian ordinal; 1 January of year 1 is day 1. */
  function Ordinal(year: int, month: int, day: int): int
    requires 1 <= month <= 12
  {
    var p := year - 1;
    p * 365 + p / 4 - p / 100 + p / 400 + DaysBeforeMonth(year, month) + day
  }

  /**
   * `calendar.weekday`: 0 is Monday. A year outside 1..9999 is first moved into
   * 2000..2399, which has the same 400-year cycle.
   */
  function Weekday(year: int, month: int, day: int): (w: int)
    requires 1 <= month <= 12
    ensures 0 <= w < 7
  {
    var y := if YearInRange(year) then year else 2000 + year % 400;
    (Ordinal(y, month, day) + 6) % 7
  }

  function PrevMonth(year: int, month: int): (int, int) {
    if month == 1 then (year - 1, 12) else (year, month - 1)
  }

  function NextMonth(year: int, month: int): (int, int) {
    if month == 12 then (year + 1, 1) else (year, month + 1)
  }

  /** The dates `year-month-d` for `d` in `range(lo, hi)`. */
  function DayRun(year: int, month: int, lo: int, hi: int): (r: seq<Date>)
    ensures |r| == if lo < hi then hi - lo else 0
    ensures forall i :: 0 <= i < |r| ==> r[i] == Date(year, month, lo + i)
  {
    seq(if lo < hi then hi - lo else 0, i => Date(year, month, lo + i))
  }

  /** Every date of the month, in ascending day order. */
  function MonthDays(year: int, month: int): seq<Date>
    requires 1 <= month <= 12
  {
    DayRun(year, month, 1, DaysInMonth(year, month) + 1)
  }

  datatype CalendarError =
    | IllegalMonth(month: int)     // `calendar.IllegalMonthError`
    | YearOutOfRange(year: int)    // the `ValueError` of `datetime.date`

  /**
   * How many days of the previous month precede day 1, and how many days of the next
   * month follow the last day, so that the weeks (starting on Monday) are complete.
   */
  function Padding(year: int, month: int): (p: (int, int))
    requires 1 <= month <= 12
    ensures 0 <= p.0 < 7 && 0 <= p.1 < 7
    ensures (p.0 + DaysInMonth(year, month) + p.1) % 7 == 0
  {
    var day1 := Weekday(year, month, 1);
    var ndays := DaysInMonth(year, month);
    var after := (0 - day1 - ndays) % 7;
    assert 0 - day1 - ndays == 7 * ((0 - day1 - ndays) / 7) + after;
    (day1, after)
  }

  /** The days of the previous month that open the month's first week. */
  function LeadingDays(year: int, month: int): (r: seq<Date>)
    requires 1 <= month <= 12
    ensures |r| == Padding(year, month).0
    ensures forall i :: 0 <= i < |r| ==> r[i].month != month
  {
    var (py, pm) := PrevMonth(year, month);
    var end := DaysInMonth(py, pm) + 1;
    DayRun(py, pm, end - Padding(year, month).0, end)
  }

  /** The days of the next month that close the month's last week. */
  function TrailingDays(year: int, month: int): (r: seq<Date>)
    requires 1 <= month <= 12
    ensures |r| == Padding(year, month).1
    ensures forall i :: 0 <= i < |r| ==> r[i].month != month
  {
    var (ny, nm) := NextMonth(year, month);
    DayRun(ny, nm, 1, Padding(year, month).1 + 1)
  }

  /**
   * `calendar.Calendar().itermonthdates(year, month)`, consumed to the end: the days of
   * the month, preceded by the days of the previous month and followed by the days of
   * the next month that complete the first and last weeks. A date whose year
   * `datetime.date` cannot hold stops the iteration with an error.
   */
  function IterMonthDates(year: int, month: int): Result<seq<Date>, CalendarError> {
    if !(1 <= month <= 12) then Failure(IllegalMonth(month))
    else
      var (before, after) := Padding(year, month);
      var py := PrevMonth(year, month).0;
      var ny := NextMonth(year, month).0;
      if before > 0 && !YearInRange(py) then Failure(YearOutOfRange(py))
      else if !YearInRange(year) then Failure(YearOutOfRange(year))
      else if after > 0 && !YearInRange(ny) then Failure(YearOutOfRange(ny))
      else Success(LeadingDays(year, month) + MonthDays(year, month) + TrailingDays(year, month))
  }

  /** The comprehension `[date for date in dates if date.month == month]`. */
  function InMonth(dates: seq<Date>, month: int): (r: seq<Date>)
    ensures |r| <= |dates|
    ensures forall d :: d in r <==> d in dates && d.month == month
  {
    if dates == [] then []
    else (if dates[0].month == month then [dates[0]] else []) + InMonth(dates[1..], month)
  }

  /** `__dates_list`: the month's iteration, filtered by month. */
  function DatesList(year: int, month: int): Result<seq<Date>, CalendarError> {
    match IterMonthDates(year, month)
    case Failure(e) => Failure(e)
    case Success(dates) => Success(InMonth(dates, month))
  }

  lemma {:induction false} InMonthAppend(a: seq<Date>, b: seq<Date>, month: int)
    ensures InMonth(a + b, month) == InMonth(a, month) + InMonth(b, month)
  {
    if a == [] {
      assert a + b == b;
    } else {
      assert (a + b)[1..] == a[1..] + b;
      InMonthAppend(a[1..], b, month);
    }
  }

  /** Filtering keeps a list whose dates all lie in the month as it is. */
  lemma {:induction false} InMonthKeepsAll(dates: seq<Date>, month: int)
    requires forall i :: 0 <= i < |dates| ==> dates[i].month == month
    ensures InMonth(dates, month) == dates
  {
    if dates != [] {
      InMonthKeepsAll(dates[1..], month);
    }
  }

  /** Filtering drops a list whose dates all lie in other months. */
  lemma {:induction false} InMonthDropsAll(dates: seq<Date>, month: int)
    requires forall i :: 0 <= i < |dates| ==> dates[i].month != month
    ensures InMonth(dates, month) == []
  {
    if dates != [] {
      InMonthDropsAll(dates[1..], month);
    }
  }

  /** Filtering twice by the same month is filtering once. */
  lemma {:induction false} InMonthIdempotent(dates: seq<Date>, month: int)
    ensures InMonth(InMonth(dates, month), month) == InMonth(dates, month)
  {
    var r := InMonth(dates, month);
    forall i | 0 <= i < |r|
      ensures r[i].month == month
    {
      assert r[i] in r;
    }
    InMonthKeepsAll(r, month);
  }

  /** 1 January of year 1 is a Monday, so January of year 1 needs no padding before it. */
  lemma NoPaddingBeforeYearOne()
    ensures Padding(1, 1).0 == 0
  {
    assert Weekday(1, 1, 1) == 0;
  }

  /** 1 December 9999 is a Wednesday, so two days of January 10000 close its last week. */
  lemma PaddingAfterLastMonth()
    ensures Padding(9999, 12).1 == 2
  {
    assert Weekday(9999, 12, 1) == 2;
    assert (0 - 2 - 31) % 7 == 2;
  }

  /**
   * The month iteration succeeds exactly for a month number in 1..12 of a year in
   * 1..9999, except December 9999: its last week runs into January 10000.
   */
  lemma IterMonthDatesSuccessIff(year: int, month: int)
    ensures IterMonthDates(year, month).Success? <==>
      1 <= month <= 12 && YearInRange(year) && !(year == 9999 && month == 12)
    ensures !(1 <= month <= 12) ==> IterMonthDates(year, month) == Failure(IllegalMonth(month))
  {
    if year == 1 && month == 1 {
      NoPaddingBeforeYearOne();
    }
    if year == 9999 && month == 12 {
      PaddingAfterLastMonth();
    }
  }

  /** The iteration covers whole weeks. */
  lemma IterMonthDatesWholeWeeks(year: int, month: int)
    requires 1 <= month <= 12 && YearInRange(year) && !(year == 9999 && month == 12)
    ensures IterMonthDates(year, month).Success?
    ensures |IterMonthDates(year, month).value| % 7 == 0
  {
    IterMonthDatesSuccessIff(year, month);
  }

  /**
   * `__dates_list` holds every date of the month exactly once, in ascending day order,
   * whenever the iteration succeeds; it fails exactly when the iteration does.
   */
  lemma DatesListValue(year: int, month: int)
    ensures DatesList(year, month).Success? <==> IterMonthDates(year, month).Success?
    ensures DatesList(year, month).Success? ==> DatesList(year, month).value == MonthDays(year, month)
    ensures DatesList(year, month).Failure? ==> DatesList(year, month).error == IterMonthDates(year, month).error
  {
    if IterMonthDates(year, month).Success? {
      var body := MonthDays(year, month);
      assert forall i :: 0 <= i < |body| ==> body[i].month == month;
      InMonthPadded(LeadingDays(year, month), body, TrailingDays(year, month), month);
    }
  }

  /** Filtering a month's days padded with dates of other months gives back the month's days. */
  lemma InMonthPadded(head: seq<Date>, body: seq<Date>, tail: seq<Date>, month: int)
    requires forall i :: 0 <= i < |head| ==> head[i].month != month
    requires forall i :: 0 <= i < |body| ==> body[i].month == month
    requires forall i :: 0 <= i < |tail| ==> tail[i].month != month
    ensures InMonth(head + body + tail, month) == body
  {
    InMonthAppend(head + body, tail, month);
    InMonthAppend(head, body, month);
    InMonthDropsAll(head, month);
    InMonthKeepsAll(body, month);
    InMonthDropsAll(tail, month);
    assert [] + body + [] == body;
  }

  /** `MonthDays` lists each day of the month once, in ascending order. */
  lemma MonthDaysSpec(year: int, month: int)
    requires 1 <= month <= 12
    ensures |MonthDays(year, month)| == DaysInMonth(year, month)
    ensures forall i :: 0 <= i < |MonthDays(year, month)| ==> MonthDays(year, month)[i] == Date(year, month, i + 1)
    ensures forall d :: d in MonthDays(year, month) <==>
      d.year == year && d.month == month && 1 <= d.day <= DaysInMonth(year, month)
  {
    var ds := MonthDays(year, month);
    forall d: Date | d.year == year && d.month == month && 1 <= d.day <= DaysInMonth(year, month)
      ensures d in ds
    {
      assert ds[d.day - 1] == d;
    }
  }

  datatype PickerError =
    | ValueError(message: string)
    | CalendarFailure(error: CalendarError)
    | EmptyChoice                          // the `IndexError` of `random.choice([])`

  const YEAR_MESSAGE := "Year must be integer from 1 to 9999. Provided value is "
  const MONTH_MESSAGE := "Year must be integer from 1 to 12. Provided value is "

  /** `repr` of an optional integer argument. */
  function Repr(v: Option<int>): string {
    if v.None? then "None" else Text.IntToString(v.value)
  }

  /** `__validate_year`: an integer argument in 1..9999 is returned as it is. */
  function ValidateYear(v: Option<int>): (r: Result<int, PickerError>)
    ensures r.Success? <==> v.Some? && 0 < v.value <= 9999
    ensures r.Success? ==> r.value == v.value
    ensures r.Failure? ==> r.error == ValueError(YEAR_MESSAGE + Repr(v))
  {
    if v.Some? && 0 < v.value <= 9999 then Success(v.value)
    else Failure(ValueError(YEAR_MESSAGE + Repr(v)))
  }

  /** `__validate_month`: an integer argument in 1..12 is returned as it is. */
  function ValidateMonth(v: Option<int>): (r: Result<int, PickerError>)
    ensures r.Success? <==> v.Some? && 0 < v.value <= 12
    ensures r.Success? ==> r.value == v.value
    ensures r.Failure? ==> r.error == ValueError(MONTH_MESSAGE + Repr(v))
  {
    if v.Some? && 0 < v.value <= 12 then Success(v.value)
    else Failure(ValueError(MONTH_MESSAGE + Repr(v)))
  }

  /** The state `__init__` leaves behind. */
  datatype RandomDatePicker = RandomDatePicker(year: int, month: int, dates: seq<Date>)

  /**
   * `RandomDatePicker(year, month)`. A missing year is `drawnYear`, drawn from the five
   * years up to `currentYear`; a missing month is `drawnMonth`, drawn from 1..12. A
   * supplied month is replaced by the year validator's result for the supplied year.
   */
  function NewPicker(year: Option<int>, month: Option<int>, currentYear: int, drawnYear: int, drawnMonth: int)
    : Result<RandomDatePicker, PickerError>
    requires currentYear - 5 <= drawnYear <= currentYear && 1 <= drawnMonth <= 12
  {
    var y := if year.None? then Success(drawnYear) else ValidateYear(year);
    if y.Failure? then Failure(y.error)
    else
      var m := if month.None? then Success(drawnMonth) else ValidateYear(year);
      if m.Failure? then Failure(m.error)
      else
        match DatesList(y.value, m.value)
        case Failure(e) => Failure(CalendarFailure(e))
        case Success(dates) => Success(RandomDatePicker(y.value, m.value, InMonth(dates, m.value)))
  }

  /**
   * The dates a picker keeps for a validated year and month: the month's own days when
   * the month can be listed, and otherwise the month iteration's error.
   */
  lemma PickerDates(year: int, month: int)
    ensures 1 <= month <= 12 && YearInRange(year) && !(year == 9999 && month == 12) ==>
      DatesList(year, month).Success? && InMonth(DatesList(year, month).value, month) == MonthDays(year, month)
  {
    if 1 <= month <= 12 && YearInRange(year) && !(year == 9999 && month == 12) {
      IterMonthDatesSuccessIff(year, month);
      DatesListValue(year, month);
      MonthDaysInMonth(year, month);
    }
  }

  /** A year and month that cannot be listed give the month iteration's error. */
  lemma PickerDatesFailure(year: int, month: int)
    ensures !(1 <= month <= 12 && YearInRange(year) && !(year == 9999 && month == 12)) ==>
      DatesList(year, month) == Failure(IterMonthDates(year, month).error)
    ensures !(1 <= month <= 12) ==> DatesList(year, month) == Failure(IllegalMonth(month))
  {
    IterMonthDatesSuccessIff(year, month);
  }

  /** Filtering the month's days by the month keeps them all. */
  lemma MonthDaysInMonth(year: int, month: int)
    requires 1 <= month <= 12
    ensures InMonth(MonthDays(year, month), month) == MonthDays(year, month)
  {
    var ds := MonthDays(year, month);
    assert forall i :: 0 <= i < |ds| ==> ds[i] == Date(year, month, 1 + i);
    InMonthKeepsAll(ds, month);
  }

  /** A supplied year outside 1..9999 raises the year validator's error. */
  lemma NewPickerInvalidYear(year: Option<int>, month: Option<int>, currentYear: int, drawnYear: int, drawnMonth: int)
    requires currentYear - 5 <= drawnYear <= currentYear && 1 <= drawnMonth <= 12
    ensures year.Some? && !(0 < year.value <= 9999) ==>
      NewPicker(year, month, currentYear, drawnYear, drawnMonth) == Failure(ValueError(YEAR_MESSAGE + Repr(year)))
  {
  }

  /** A month supplied without a year raises the year validator's error for `None`. */
  lemma NewPickerMonthWithoutYear(month: Option<int>, currentYear: int, drawnYear: int, drawnMonth: int)
    requires currentYear - 5 <= drawnYear <= currentYear && 1 <= drawnMonth <= 12
    ensures month.Some? ==>
      NewPicker(None, month, currentYear, drawnYear, drawnMonth) == Failure(ValueError(YEAR_MESSAGE + "None"))
  {
  }

  /**
   * A valid year with any month supplied: the month is the validated year, so only a
   * year in 1..12 builds a picker, for the month numbered like the year.
   */
  lemma NewPickerYearAndMonth(year: int, month: int, currentYear: int, drawnYear: int, drawnMonth: int)
    requires currentYear - 5 <= drawnYear <= currentYear && 1 <= drawnMonth <= 12
    ensures 0 < year <= 9999 ==>
      NewPicker(Some(year), Some(month), currentYear, drawnYear, drawnMonth) ==
        if year <= 12 then Success(RandomDatePicker(year, year, MonthDays(year, year)))
        else Failure(CalendarFailure(IllegalMonth(year)))
  {
    PickerDates(year, year);
    PickerDatesFailure(year, year);
  }

  /**
   * No month supplied: the drawn month of the given or drawn year, listed unless the year
   * is out of range or the month is December 9999.
   */
  lemma NewPickerDrawnMonth(year: Option<int>, currentYear: int, drawnYear: int, drawnMonth: int)
    requires currentYear - 5 <= drawnYear <= currentYear && 1 <= drawnMonth <= 12
    ensures year.None? || 0 < year.value <= 9999 ==>
      var y := if year.None? then drawnYear else year.value;
      NewPicker(year, None, currentYear, drawnYear, drawnMonth) ==
        if YearInRange(y) && !(y == 9999 && drawnMonth == 12)
        then Success(RandomDatePicker(y, drawnMonth, MonthDays(y, drawnMonth)))
        else Failure(CalendarFailure(IterMonthDates(y, drawnMonth).error))
  {
    var y := if year.None? then drawnYear else year.value;
    PickerDates(y, drawnMonth);
    PickerDatesFailure(y, drawnMonth);
  }

  /** Supplying both a year and a month yields a picker for month `year`, not `month`. */
  lemma SuppliedMonthIgnored()
    ensures NewPicker(Some(2020), Some(5), 2024, 2024, 1) == Failure(CalendarFailure(IllegalMonth(2020)))
    ensures NewPicker(Some(3), Some(5), 2024, 2024, 1).Success?
    ensures NewPicker(Some(3), Some(5), 2024, 2024, 1).value.month == 3
  {
    NewPickerYearAndMonth(2020, 5, 2024, 2024, 1);
    NewPickerYearAndMonth(3, 5, 2024, 2024, 1);
  }

  /** Year 9999 passes the year validator, but December 9999 cannot be listed. */
  lemma LastMonthFails()
    ensures ValidateYear(Some(9999)) == Success(9999)
    ensures NewPicker(Some(9999), None, 2024, 2024, 12) == Failure(CalendarFailure(YearOutOfRange(10000)))
  {
    PaddingAfterLastMonth();
  }

  /** Every picker the construction builds holds a whole month, so `pick_date` always has a date. */
  lemma {:induction false} NewPickerNonEmpty(year: Option<int>, month: Option<int>, currentYear: int, drawnYear: int, drawnMonth: int)
    requires currentYear - 5 <= drawnYear <= currentYear && 1 <= drawnMonth <= 12
    ensures var r := NewPicker(year, month, currentYear, drawnYear, drawnMonth);
      r.Success? ==> 1 <= r.value.month <= 12 && |r.value.dates| >= 28
  {
    var r := NewPicker(year, month, currentYear, drawnYear, drawnMonth);
    if r.Success? {
      NewPickerInvalidYear(year, month, currentYear, drawnYear, drawnMonth);
      NewPickerMonthWithoutYear(month, currentYear, drawnYear, drawnMonth);
      if month.Some? {
        NewPickerYearAndMonth(year.value, month.value, currentYear, drawnYear, drawnMonth);
      } else {
        NewPickerDrawnMonth(year, currentYear, drawnYear, drawnMonth);
      }
      MonthDaysSpec(r.value.year, r.value.month);
    }
  }

  /**
   * The evidently intended construction: the month goes through the month validator,
   * and the dates are the month's own days, listed without padding weeks.
   */
  function NewPickerIntended(year: Option<int>, month: Option<int>, currentYear: int, drawnYear: int, drawnMonth: int)
    : Result<RandomDatePicker, PickerError>
    requires currentYear - 5 <= drawnYear <= currentYear && 1 <= drawnMonth <= 12
  {
    var y := if year.None? then Success(drawnYear) else ValidateYear(year);
    if y.Failure? then Failure(y.error)
    else
      var m := if month.None? then Success(drawnMonth) else ValidateMonth(month);
      if m.Failure? then Failure(m.error)
      else Success(RandomDatePicker(y.value, m.value, MonthDays(y.value, m.value)))
  }

  /**
   * With the intended construction, valid arguments always build a picker for exactly
   * the requested year and month, and invalid ones fail with their own validator's error.
   */
  lemma NewPickerIntendedSpec(year: Option<int>, month: Option<int>, currentYear: int, drawnYear: int, drawnMonth: int)
    requires currentYear - 5 <= drawnYear <= currentYear && 1 <= drawnMonth <= 12
    ensures var r := NewPickerIntended(year, month, currentYear, drawnYear, drawnMonth);
      r.Success? <==> (year.None? || 0 < year.value <= 9999) && (month.None? || 0 < month.value <= 12)
    ensures var r := NewPickerIntended(year, month, currentYear, drawnYear, drawnMonth);
      r.Success? ==>
        r.value.year == (if year.None? then drawnYear else year.value) &&
        r.value.month == (if month.None? then drawnMonth else month.value) &&
        |r.value.dates| >= 28 &&
        forall d :: d in r.value.dates <==>
          d.year == r.value.year && d.month == r.value.month && 1 <= d.day <= DaysInMonth(r.value.year, r.value.month)
    ensures var r := NewPickerIntended(year, month, currentYear, drawnYear, drawnMonth);
      year.Some? && 0 < year.value <= 9999 && month.Some? && !(0 < month.value <= 12) ==>
        r == Failure(ValueError(MONTH_MESSAGE + Repr(month)))
  {
    var r := NewPickerIntended(year, month, currentYear, drawnYear, drawnMonth);
    if r.Success? {
      MonthDaysSpec(r.value.year, r.value.month);
    }
  }

  /** `pick_date`: some date of the picker's list; the empty list is an error. */
  method PickDate(p: RandomDatePicker) returns (r: Result<Date, PickerError>)
    ensures r.Failure? <==> p.dates == []
    ensures r.Failure? ==> r.error == EmptyChoice
    ensures r.Success? ==> r.value in p.dates
  {
    if p.dates == [] {
      return Failure(EmptyChoice);
    }
    assert p.dates[0] in p.dates;
    var d :| d in p.dates;
    return Success(d);
  }
}

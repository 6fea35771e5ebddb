/**
 The date arithmetic behind the review schedule: the `addDays`, `addWeeks`
 and `addMonths` helpers of the bulk-import handler.

 Those helpers call the JavaScript `Date` setters `setDate` and `setMonth`,
 which go through the ECMAScript `MakeDay(year, month, date)` operation: the
 month is normalised into a year and a month of that year, and the date is
 counted from the first day of that month with no clamping, so an overflowing
 date rolls forward into the following month(s).

 An instant is modelled as a whole day number (day 0 is 1970-01-01) in the
 proleptic Gregorian calendar. Months are numbered 0..11 as `getMonth` does and
 dates 1..31 as `getDate` does.
 */
module Calendar {

  /** A whole day number; day 0 is 1970-01-01. */
  type Day = int

  /** A calendar date as JavaScript reports it: month 0..11, date 1..31. */
  datatype Civil = Civil(year: int, month: int, date: int)

  /** Days in a 400-year Gregorian cycle. */
  const DaysPerCycle: int := 146097

  predicate IsLeapYear(y: int)
  {
    y % 4 == 0 && (y % 100 != 0 || y % 400 == 0)
  }

  function DaysInYear(y: int): int
  {
    if IsLeapYear(y) then 366 else 365
  }

  /** ECMAScript DayFromYear, the closed formula for the day number of January 1st of year `y`. */
  function DayFromYearFormula(y: int): Day
  {
    365 * (y - 1970) + (y - 1969) / 4 - (y - 1901) / 100 + (y - 1601) / 400
  }

  /**
   The day number of January 1st of year `y`, as the year lengths since 1970
   added up (DayFromYearMatchesFormula shows it equals the closed formula).
   */
  function DayFromYear(y: int): Day
    decreases if y < 1970 then 1970 - y else y - 1970
  {
    if y == 1970 then 0
    else if y > 1970 then DayFromYear(y - 1) + DaysInYear(y - 1)
    else DayFromYear(y + 1) - DaysInYear(y)
  }

  function DaysInMonth(y: int, m: int): int
    requires 0 <= m < 12
  {
    if m == 1 then (if IsLeapYear(y) then 29 else 28)
    else if m == 3 || m == 5 || m == 8 || m == 10 then 30
    else 31
  }

  /** Days of year `y` that come before month `m` (0..12): the lengths of the months before it added up. */
  function DaysBeforeMonth(y: int, m: int): int
    requires 0 <= m <= 12
  {
    if m == 0 then 0 else DaysBeforeMonth(y, m - 1) + DaysInMonth(y, m - 1)
  }

  /** The day number of the first day of month `m` (0..11) of year `y`. */
  function FirstDayOfMonth(y: int, m: int): Day
    requires 0 <= m < 12
  {
    DayFromYear(y) + DaysBeforeMonth(y, m)
  }

  /**
   ECMAScript MakeDay: the day that is `date - 1` days after the first day of
   month `month` of year `year`, where `month` may lie outside 0..11 (it is
   normalised into the neighbouring years) and `date` may lie outside the month.
   */
  function MakeDay(year: int, month: int, date: int): Day
  {
    FirstDayOfMonth(year + month / 12, month % 12) + date - 1
  }

  /** Within a year, MakeDay counts from January 1st of that year. */
  lemma MakeDayInYear(y: int, m: int, date: int)
    requires 0 <= m < 12
    ensures MakeDay(y, m, date) == DayFromYear(y) + DaysBeforeMonth(y, m) + date - 1
  {
    assert m / 12 == 0 && m % 12 == m;
  }

  /** A date that names a real day: no overflow in month or date. */
  predicate ValidCivil(c: Civil)
  {
    0 <= c.month < 12 && 1 <= c.date <= DaysInMonth(c.year, c.month)
  }

  // ---------------------------------------------------------------------------
  // Facts about the year and month tables
  // ---------------------------------------------------------------------------

  lemma MonthTable(y: int, m: int)
    requires 0 <= m < 12
    ensures DaysBeforeMonth(y, m + 1) == DaysBeforeMonth(y, m) + DaysInMonth(y, m)
    ensures 28 <= DaysInMonth(y, m) <= 31
  {
  }

  lemma MonthTableEnds(y: int)
    ensures DaysBeforeMonth(y, 0) == 0
    ensures DaysBeforeMonth(y, 12) == DaysInYear(y)
  {
    var leap := if IsLeapYear(y) then 1 else 0;
    assert DaysBeforeMonth(y, 1) == 31;
    assert DaysBeforeMonth(y, 2) == 59 + leap;
    assert DaysBeforeMonth(y, 3) == 90 + leap;
    assert DaysBeforeMonth(y, 4) == 120 + leap;
    assert DaysBeforeMonth(y, 5) == 151 + leap;
    assert DaysBeforeMonth(y, 6) == 181 + leap;
    assert DaysBeforeMonth(y, 7) == 212 + leap;
    assert DaysBeforeMonth(y, 8) == 243 + leap;
    assert DaysBeforeMonth(y, 9) == 273 + leap;
    assert DaysBeforeMonth(y, 10) == 304 + leap;
    assert DaysBeforeMonth(y, 11) == 334 + leap;
  }

  /** Months further into the year start strictly later. */
  lemma {:induction false} DaysBeforeMonthIncreasing(y: int, m1: int, m2: int)
    requires 0 <= m1 < m2 <= 12
    ensures DaysBeforeMonth(y, m1) < DaysBeforeMonth(y, m2)
    decreases m2 - m1
  {
    MonthTable(y, m1);
    if m1 + 1 < m2 {
      DaysBeforeMonthIncreasing(y, m1 + 1, m2);
    }
  }

  /** How the floor terms of DayFromYear move from one year to the next. */
  lemma FloorStep4(y: int)
    ensures (y - 1968) / 4 == (y - 1969) / 4 + (if y % 4 == 0 then 1 else 0)
  {
  }

  lemma FloorStep100(y: int)
    ensures (y - 1900) / 100 == (y - 1901) / 100 + (if y % 100 == 0 then 1 else 0)
  {
  }

  lemma FloorStep400(y: int)
    ensures (y - 1600) / 400 == (y - 1601) / 400 + (if y % 400 == 0 then 1 else 0)
  {
  }

  lemma DivisibleChain(y: int)
    ensures y % 100 == 0 ==> y % 4 == 0
    ensures y % 400 == 0 ==> y % 100 == 0
  {
    if y % 100 == 0 {
      assert y == 4 * (25 * (y / 100));
    }
    if y % 400 == 0 {
      assert y == 100 * (4 * (y / 400));
    }
  }

  lemma FormulaNext(y: int)
    ensures DayFromYearFormula(y + 1) == 365 * (y - 1969) + (y - 1968) / 4 - (y - 1900) / 100 + (y - 1600) / 400
  {
  }

  /** One year on, the closed formula has advanced by the length of that year. */
  lemma FormulaStep(y: int)
    ensures DayFromYearFormula(y + 1) == DayFromYearFormula(y) + DaysInYear(y)
  {
    FloorStep4(y);
    FloorStep100(y);
    FloorStep400(y);
    DivisibleChain(y);
    FormulaNext(y);
  }

  /** One year on, DayFromYear has advanced by the length of that year. */
  lemma DayFromYearStep(y: int)
    ensures DayFromYear(y + 1) == DayFromYear(y) + DaysInYear(y)
  {
  }

  /** The summed year lengths agree with the closed formula of ECMAScript. */
  lemma {:induction false} DayFromYearMatchesFormula(y: int)
    ensures DayFromYear(y) == DayFromYearFormula(y)
    decreases if y < 1970 then 1970 - y else y - 1970
  {
    if y > 1970 {
      DayFromYearMatchesFormula(y - 1);
      FormulaStep(y - 1);
    } else if y < 1970 {
      DayFromYearMatchesFormula(y + 1);
      FormulaStep(y);
    }
  }

  lemma FloorShifts(a: int, k: int)
    ensures (a + 400 * k) / 4 == a / 4 + 100 * k
    ensures (a + 400 * k) / 100 == a / 100 + 4 * k
    ensures (a + 400 * k) / 400 == a / 400 + k
  {
  }

  /** The Gregorian calendar repeats every 400 years, which span DaysPerCycle days. */
  lemma DayFromYearCycle(y: int, q: int)
    ensures DayFromYear(y + 400 * q) == DayFromYear(y) + DaysPerCycle * q
  {
    FloorShifts(y - 1969, q);
    FloorShifts(y - 1901, q);
    FloorShifts(y - 1601, q);
    DayFromYearMatchesFormula(y);
    DayFromYearMatchesFormula(y + 400 * q);
  }

  lemma CycleStart()
    ensures DayFromYear(1970) == 0
    ensures DayFromYear(2370) == DaysPerCycle
  {
    DayFromYearCycle(1970, 1);
  }

  /** DayFromYear is strictly increasing in the year. */
  lemma {:induction false} DayFromYearIncreasing(y1: int, y2: int)
    requires y1 < y2
    ensures DayFromYear(y1) < DayFromYear(y2)
    decreases y2 - y1
  {
    DayFromYearStep(y1);
    if y1 + 1 < y2 {
      DayFromYearIncreasing(y1 + 1, y2);
    }
  }

  // ---------------------------------------------------------------------------
  // From a day number back to its calendar date
  // ---------------------------------------------------------------------------

  /**
   The offset (0..399) of the year of day `r` within the 400-year cycle that
   starts on 1970-01-01, searching upwards from offset `k`.
   */
  function YearInCycle(k: int, r: Day): (k': int)
    requires 0 <= k < 400
    requires DayFromYear(1970 + k) <= r < DaysPerCycle
    ensures k <= k' < 400
    ensures DayFromYear(1970 + k') <= r < DayFromYear(1970 + k' + 1)
    decreases 400 - k
  {
    CycleStart();
    if r < DayFromYear(1970 + k + 1) then k else YearInCycle(k + 1, r)
  }

  /**
   ECMAScript YearFromTime: the year that contains day `t`, found by moving
   whole 400-year cycles towards the cycle that starts on 1970-01-01.
   */
  function YearFromDay(t: Day): (y: int)
    ensures DayFromYear(y) <= t < DayFromYear(y + 1)
    decreases if t < 0 then 1 else 0, if t < 0 then -t else t
  {
    if t < 0 then
      var y := YearFromDay(t + DaysPerCycle);
      DayFromYearCycle(y - 400, 1);
      DayFromYearCycle(y - 399, 1);
      y - 400
    else if DaysPerCycle <= t then
      var y := YearFromDay(t - DaysPerCycle);
      DayFromYearCycle(y, 1);
      DayFromYearCycle(y + 1, 1);
      y + 400
    else
      CycleStart();
      1970 + YearInCycle(0, t)
  }

  /** The month (0..11) of year `y` that contains day `d` of that year, searching upwards from `m`. */
  function MonthInYear(y: int, m: int, d: int): (m': int)
    requires 0 <= m < 12
    requires DaysBeforeMonth(y, m) <= d < DaysBeforeMonth(y, 12)
    ensures m <= m' < 12
    ensures DaysBeforeMonth(y, m') <= d < DaysBeforeMonth(y, m' + 1)
    decreases 12 - m
  {
    if d < DaysBeforeMonth(y, m + 1) then m else MonthInYear(y, m + 1, d)
  }

  /** The calendar date (`getFullYear`, `getMonth`, `getDate`) of day `t`. */
  function CivilFromDay(t: Day): (c: Civil)
    ensures ValidCivil(c)
    ensures c.year == YearFromDay(t)
    ensures FirstDayOfMonth(c.year, c.month) + c.date - 1 == t
  {
    var y := YearFromDay(t);
    DayFromYearStep(y);
    MonthTableEnds(y);
    var d := t - DayFromYear(y);
    var m := MonthInYear(y, 0, d);
    MonthTable(y, m);
    var date := d - DaysBeforeMonth(y, m) + 1;
    Civil(y, m, date)
  }

  /** CivilFromDay then MakeDay gives back the day it started from. */
  lemma CivilFromDayRoundTrip(t: Day)
    ensures var c := CivilFromDay(t);
            MakeDay(c.year, c.month, c.date) == t
  {
    var c := CivilFromDay(t);
    MakeDayInYear(c.year, c.month, c.date);
  }

  /** Only one year contains a given day. */
  lemma YearUnique(t: Day, y: int)
    requires DayFromYear(y) <= t < DayFromYear(y + 1)
    ensures YearFromDay(t) == y
  {
    var y' := YearFromDay(t);
    if y' < y {
      if y' + 1 < y {
        DayFromYearIncreasing(y' + 1, y);
      }
      assert false;
    } else if y < y' {
      if y + 1 < y' {
        DayFromYearIncreasing(y + 1, y');
      }
      assert false;
    }
  }

  /** Only one valid month and date of a year give a particular day of that year. */
  lemma DayOfYearUnique(y: int, m1: int, date1: int, m2: int, date2: int)
    requires ValidCivil(Civil(y, m1, date1)) && ValidCivil(Civil(y, m2, date2))
    requires DaysBeforeMonth(y, m1) + date1 == DaysBeforeMonth(y, m2) + date2
    ensures m1 == m2 && date1 == date2
  {
    MonthTable(y, m1);
    MonthTable(y, m2);
    if m1 + 1 < m2 {
      DaysBeforeMonthIncreasing(y, m1 + 1, m2);
    } else if m2 + 1 < m1 {
      DaysBeforeMonthIncreasing(y, m2 + 1, m1);
    }
  }

  /** The calendar date of the day `date - 1` days into month `month` of year `year` is that date. */
  lemma CivilOfDay(t: Day, c: Civil)
    requires ValidCivil(c)
    requires t == FirstDayOfMonth(c.year, c.month) + c.date - 1
    ensures CivilFromDay(t) == c
  {
    assert YearFromDay(t) == c.year by {
      MonthTable(c.year, c.month);
      MonthTableEnds(c.year);
      if 0 < c.month {
        DaysBeforeMonthIncreasing(c.year, 0, c.month);
      }
      if c.month + 1 < 12 {
        DaysBeforeMonthIncreasing(c.year, c.month + 1, 12);
      }
      DayFromYearStep(c.year);
      YearUnique(t, c.year);
    }
    var c' := CivilFromDay(t);
    DayOfYearUnique(c.year, c.month, c.date, c'.month, c'.date);
  }

  /**
   The other half of the round trip: a valid calendar date survives
   MakeDay followed by CivilFromDay unchanged.
   */
  lemma CivilRoundTrip(c: Civil)
    requires ValidCivil(c)
    ensures CivilFromDay(MakeDay(c.year, c.month, c.date)) == c
  {
    MakeDayInYear(c.year, c.month, c.date);
    CivilOfDay(MakeDay(c.year, c.month, c.date), c);
  }

  /** Two days are the same exactly when their calendar dates are. */
  lemma CivilFromDayInjective(t1: Day, t2: Day)
    ensures CivilFromDay(t1) == CivilFromDay(t2) <==> t1 == t2
  {
  }

  // ---------------------------------------------------------------------------
  // The three helpers of the bulk-import handler
  // ---------------------------------------------------------------------------

  /** `addDays(date, days)`: `setDate(getDate() + days)` on a copy of `date`. */
  function AddDays(t: Day, days: int): (r: Day)
    ensures r == t + days
  {
    var c := CivilFromDay(t);
    MakeDayInYear(c.year, c.month, c.date + days);
    MakeDay(c.year, c.month, c.date + days)
  }

  /** `addWeeks(date, weeks)`: `addDays(date, weeks * 7)`. */
  function AddWeeks(t: Day, weeks: int): (r: Day)
    ensures r == t + 7 * weeks
  {
    AddDays(t, weeks * 7)
  }

  /** `addMonths(date, months)`: `setMonth(getMonth() + months)` on a copy of `date`. */
  function AddMonths(t: Day, months: int): Day
  {
    var c := CivilFromDay(t);
    MakeDay(c.year, c.month + months, c.date)
  }

  /** The year and month that `months` months after month `m` of year `y` falls in. */
  function ShiftMonth(y: int, m: int, months: int): (r: (int, int))
    ensures 0 <= r.1 < 12
  {
    (y + (m + months) / 12, (m + months) % 12)
  }

  /** MakeDay with an out-of-range month is MakeDay on the normalised year and month. */
  lemma MakeDayShift(y: int, m: int, months: int, date: int)
    ensures var ym := ShiftMonth(y, m, months);
            MakeDay(y, m + months, date) == FirstDayOfMonth(ym.0, ym.1) + date - 1
  {
  }

  lemma FloorStep12(a: int)
    ensures (a + 1) / 12 == a / 12 + (a % 12 + 1) / 12
    ensures (a + 1) % 12 == (a % 12 + 1) % 12
  {
  }

  /** Shifting by one more month is shifting the normalised month by one. */
  lemma ShiftMonthNext(y: int, m: int, months: int)
    ensures var ym := ShiftMonth(y, m, months);
            ShiftMonth(y, m, months + 1) == ShiftMonth(ym.0, ym.1, 1)
  {
    FloorStep12(m + months);
  }

  /** The next month starts the length of month `m` after month `m` starts. */
  lemma NextMonthStart(y: int, m: int)
    requires 0 <= m < 12
    ensures var ym := ShiftMonth(y, m, 1);
            FirstDayOfMonth(ym.0, ym.1) == FirstDayOfMonth(y, m) + DaysInMonth(y, m)
  {
    MonthTable(y, m);
    MonthTableEnds(y);
    if m == 11 {
      assert ShiftMonth(y, m, 1) == (y + 1, 0);
      DayFromYearStep(y);
    } else {
      assert ShiftMonth(y, m, 1) == (y, m + 1);
    }
  }

  /** Moving MakeDay on by one month adds the length of the (normalised) month passed. */
  lemma MakeDayNextMonth(y: int, m: int, date: int, months: int)
    ensures var ym := ShiftMonth(y, m, months);
            MakeDay(y, m + months + 1, date) == MakeDay(y, m + months, date) + DaysInMonth(ym.0, ym.1)
  {
    var ym := ShiftMonth(y, m, months);
    MakeDayShift(y, m, months, date);
    MakeDayShift(y, m, months + 1, date);
    ShiftMonthNext(y, m, months);
    NextMonthStart(ym.0, ym.1);
  }

  /** A date past the end of its month names a day of the following month. */
  lemma MakeDayOverflow(y: int, m: int, date: int)
    requires 0 <= m < 12
    ensures var next := ShiftMonth(y, m, 1);
            MakeDay(y, m, date) == MakeDay(next.0, next.1, date - DaysInMonth(y, m))
  {
    var next := ShiftMonth(y, m, 1);
    MakeDayInYear(y, m, date);
    MakeDayInYear(next.0, next.1, date - DaysInMonth(y, m));
    NextMonthStart(y, m);
  }

  lemma AddMonthsUnfold(t: Day, months: int)
    ensures var c := CivilFromDay(t);
            AddMonths(t, months) == MakeDay(c.year, c.month + months, c.date)
  {
  }

  /** MakeDay gives the same day for a month and for its normalised year and month. */
  lemma MakeDayNormalise(y: int, m: int, months: int, date: int)
    ensures var ym := ShiftMonth(y, m, months);
            MakeDay(y, m + months, date) == MakeDay(ym.0, ym.1, date)
  {
    var ym := ShiftMonth(y, m, months);
    MakeDayShift(y, m, months, date);
    MakeDayInYear(ym.0, ym.1, date);
  }

  /** The calendar date of a day given by a date of month `m` that overflows by at most one month. */
  lemma CivilOfMakeDay(y: int, m: int, date: int)
    requires 0 <= m < 12
    requires 1 <= date <= 31
    ensures var r := CivilFromDay(MakeDay(y, m, date));
            if date <= DaysInMonth(y, m) then r == Civil(y, m, date)
            else
              var next := ShiftMonth(y, m, 1);
              r == Civil(next.0, next.1, date - DaysInMonth(y, m))
  {
    MonthTable(y, m);
    if date <= DaysInMonth(y, m) {
      CivilRoundTrip(Civil(y, m, date));
    } else {
      var next := ShiftMonth(y, m, 1);
      MakeDayOverflow(y, m, date);
      MonthTable(next.0, next.1);
      CivilRoundTrip(Civil(next.0, next.1, date - DaysInMonth(y, m)));
    }
  }

  /**
   Adding months keeps the date of the month when the target month is long
   enough, and otherwise rolls the surplus days into the following month
   (there is no clamping to the target month's last day).
   */
  lemma AddMonthsCivil(t: Day, months: int)
    ensures var c := CivilFromDay(t);
            var ym := ShiftMonth(c.year, c.month, months);
            var r := CivilFromDay(AddMonths(t, months));
            if c.date <= DaysInMonth(ym.0, ym.1) then r == Civil(ym.0, ym.1, c.date)
            else
              var next := ShiftMonth(ym.0, ym.1, 1);
              r == Civil(next.0, next.1, c.date - DaysInMonth(ym.0, ym.1))
  {
    var c := CivilFromDay(t);
    var ym := ShiftMonth(c.year, c.month, months);
    var d := AddMonths(t, months);
    assert d == MakeDay(ym.0, ym.1, c.date) by {
      AddMonthsUnfold(t, months);
      MakeDayNormalise(c.year, c.month, months, c.date);
    }
    CivilOfMakeDay(ym.0, ym.1, c.date);
  }

  /** One more month in MakeDay adds the length of the normalised month passed, 28 to 31 days. */
  lemma MakeDayMonthStep(y: int, m: int, date: int, months: int)
    ensures var ym := ShiftMonth(y, m, months);
            && MakeDay(y, m + (months + 1), date) == MakeDay(y, m + months, date) + DaysInMonth(ym.0, ym.1)
            && 28 <= DaysInMonth(ym.0, ym.1) <= 31
  {
    MakeDayNextMonth(y, m, date, months);
    assert m + (months + 1) == m + months + 1;
  }

  /** Each further month adds the length of the month it passes, between 28 and 31 days. */
  lemma AddMonthsStep(t: Day, months: int)
    ensures var c := CivilFromDay(t);
            var ym := ShiftMonth(c.year, c.month, months);
            AddMonths(t, months + 1) == AddMonths(t, months) + DaysInMonth(ym.0, ym.1)
    ensures 28 <= AddMonths(t, months + 1) - AddMonths(t, months) <= 31
  {
    var c := CivilFromDay(t);
    AddMonthsUnfold(t, months);
    AddMonthsUnfold(t, months + 1);
    MakeDayMonthStep(c.year, c.month, c.date, months);
  }

  lemma AddMonthsZero(t: Day)
    ensures AddMonths(t, 0) == t
  {
  }

  /** `months` whole months span between 28 and 31 days each. */
  lemma {:induction false} AddMonthsBounds(t: Day, months: nat)
    ensures t + 28 * months <= AddMonths(t, months) <= t + 31 * months
  {
    if months == 0 {
      AddMonthsZero(t);
    } else {
      AddMonthsBounds(t, months - 1);
      AddMonthsStep(t, months - 1);
    }
  }

  /** AddMonths is strictly increasing in the number of months. */
  lemma {:induction false} AddMonthsIncreasing(t: Day, k1: int, k2: int)
    requires k1 < k2
    ensures AddMonths(t, k1) < AddMonths(t, k2)
    decreases k2 - k1
  {
    AddMonthsStep(t, k1);
    if k1 + 1 < k2 {
      AddMonthsIncreasing(t, k1 + 1, k2);
    }
  }

  /** The day `months` months after the valid date `c`. */
  lemma AddMonthsOfCivil(c: Civil, months: int)
    requires ValidCivil(c)
    ensures AddMonths(MakeDay(c.year, c.month, c.date), months) == MakeDay(c.year, c.month + months, c.date)
  {
    var t := MakeDay(c.year, c.month, c.date);
    CivilRoundTrip(c);
    AddMonthsUnfold(t, months);
  }

  /**
   January 31st plus one month is March 3rd in a common year and March 2nd in
   a leap year: the date 31 overflows February instead of being clamped.
   */
  lemma JanuaryThirtyFirstRollsOver(y: int)
    ensures AddMonths(MakeDay(y, 0, 31), 1) == MakeDay(y, 2, if IsLeapYear(y) then 2 else 3)
  {
    AddMonthsOfCivil(Civil(y, 0, 31), 1);
    MakeDayOverflow(y, 1, 31);
  }

  /** January 31st plus eleven months is December 31st of the same year. */
  lemma JanuaryThirtyFirstElevenMonths(y: int)
    ensures AddMonths(MakeDay(y, 0, 31), 11) == MakeDay(y, 11, 31)
  {
    AddMonthsOfCivil(Civil(y, 0, 31), 11);
  }
}

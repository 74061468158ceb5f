/**
 * The proleptic Gregorian calendar that JavaScript's `Date` implements: month lengths,
 * day numbers, weekdays (0 = Sunday, as `getDay()`), and stepping by days and months
 * the way `new Date(year, month + k, day)` normalises its arguments.
 */
module Calendar {

  /** A calendar date; `month` runs 1..12 (JavaScript's `getMonth() + 1`). */
  datatype Date = Date(year: int, month: int, day: int)

  predicate IsLeapYear(y: int)
  {
    y % 4 == 0 && (y % 100 != 0 || y % 400 == 0)
  }

  function DaysInMonth(y: int, m: int): (n: int)
    requires 1 <= m <= 12
    ensures 28 <= n <= 31
    ensures n == 29 <==> m == 2 && IsLeapYear(y)
  {
    if m == 2 then (if IsLeapYear(y) then 29 else 28)
    else if m == 4 || m == 6 || m == 9 || m == 11 then 30
    else 31
  }

  /** The dates a JavaScript `Date` can denote. */
  predicate ValidDate(d: Date)
  {
    1 <= d.month <= 12 && 1 <= d.day <= DaysInMonth(d.year, d.month)
  }

  function DaysBeforeYear(y: int): int
  {
    365 * (y - 1) + (y - 1) / 4 - (y - 1) / 100 + (y - 1) / 400
  }

  function DaysBeforeMonth(y: int, m: int): int
    requires 1 <= m <= 13
    decreases m
  {
    if m == 1 then 0 else DaysBeforeMonth(y, m - 1) + DaysInMonth(y, m - 1)
  }

  /** Days since 0000-12-31 of the proleptic Gregorian calendar (0001-01-01 is day 1, a Monday). */
  function DayNumber(d: Date): int
    requires 1 <= d.month <= 12
  {
    DaysBeforeYear(d.year) + DaysBeforeMonth(d.year, d.month) + d.day
  }

  /** `getDay()`: 0 = Sunday, ..., 6 = Saturday. */
  function Weekday(d: Date): (w: int)
    requires 1 <= d.month <= 12
    ensures 0 <= w < 7
  {
    DayNumber(d) % 7
  }

  /** The number `yyyy * 10000 + mm * 100 + dd` the application compares dates by. */
  function YmdNumber(d: Date): int
  {
    d.year * 10000 + d.month * 100 + d.day
  }

  lemma YearLength(y: int)
    ensures DaysBeforeMonth(y, 13) == if IsLeapYear(y) then 366 else 365
    ensures DaysBeforeYear(y + 1) == DaysBeforeYear(y) + DaysBeforeMonth(y, 13)
  {
    MonthsOfYear(y);
    YearStep(y);
  }

  /** The twelve months add up to the year's length. */
  lemma MonthsOfYear(y: int)
    ensures DaysBeforeMonth(y, 13) == 337 + DaysInMonth(y, 2)
  {
    var feb := DaysInMonth(y, 2);
    assert DaysBeforeMonth(y, 2) == 31;
    assert DaysBeforeMonth(y, 3) == 31 + feb;
    assert DaysBeforeMonth(y, 4) == 62 + feb;
    assert DaysBeforeMonth(y, 5) == 92 + feb;
    assert DaysBeforeMonth(y, 6) == 123 + feb;
    assert DaysBeforeMonth(y, 7) == 153 + feb;
    assert DaysBeforeMonth(y, 8) == 184 + feb;
    assert DaysBeforeMonth(y, 9) == 215 + feb;
    assert DaysBeforeMonth(y, 10) == 245 + feb;
    assert DaysBeforeMonth(y, 11) == 276 + feb;
    assert DaysBeforeMonth(y, 12) == 306 + feb;
  }

  /** One more year adds 366 days when it is a leap year, else 365. */
  lemma YearStep(y: int)
    ensures DaysBeforeYear(y + 1) == DaysBeforeYear(y) + (if IsLeapYear(y) then 366 else 365)
  {
    DivStep(y, 4);
    DivStep(y, 100);
    DivStep(y, 400);
    Divisibility(y);
    var a, b, c := y / 4 - (y - 1) / 4, y / 100 - (y - 1) / 100, y / 400 - (y - 1) / 400;
    assert DaysBeforeYear(y + 1) == DaysBeforeYear(y) + 365 + a - b + c;
    assert a - b + c == if IsLeapYear(y) then 1 else 0;
  }

  /** A multiple of 400 is a multiple of 100, which is a multiple of 4. */
  lemma Divisibility(y: int)
    ensures y % 400 == 0 ==> y % 100 == 0
    ensures y % 100 == 0 ==> y % 4 == 0
  {
    if y % 400 == 0 {
      var q := y / 400;
      assert y == 400 * q;
      assert y / 100 == 4 * q;
    }
    if y % 100 == 0 {
      var q := y / 100;
      assert y == 100 * q;
      assert y / 4 == 25 * q;
    }
  }

  lemma DivStep(y: int, k: int)
    requires k == 4 || k == 100 || k == 400
    ensures y / k - (y - 1) / k == if y % k == 0 then 1 else 0
  {
    if k == 4 {
      assert y / 4 - (y - 1) / 4 == if y % 4 == 0 then 1 else 0;
    } else if k == 100 {
      assert y / 100 - (y - 1) / 100 == if y % 100 == 0 then 1 else 0;
    } else {
      assert y / 400 - (y - 1) / 400 == if y % 400 == 0 then 1 else 0;
    }
  }

  /** A month starts the day after the previous one ends. */
  lemma MonthStep(y: int, m: int)
    requires 2 <= m <= 12
    ensures DayNumber(Date(y, m, 1)) == DayNumber(Date(y, m - 1, DaysInMonth(y, m - 1))) + 1
  {
  }

  /** A year starts the day after 31 December of the previous one. */
  lemma YearEnd(y: int)
    ensures DayNumber(Date(y + 1, 1, 1)) == DayNumber(Date(y, 12, 31)) + 1
  {
    YearLength(y);
    assert DaysBeforeMonth(y, 13) == DaysBeforeMonth(y, 12) + 31;
  }

  /** The day after `d`. */
  function NextDay(d: Date): (r: Date)
    requires ValidDate(d)
    ensures ValidDate(r)
  {
    if d.day < DaysInMonth(d.year, d.month) then d.(day := d.day + 1)
    else if d.month < 12 then Date(d.year, d.month + 1, 1)
    else Date(d.year + 1, 1, 1)
  }

  /** The day after is one day number further, across month and year ends. */
  lemma NextDayNumber(d: Date)
    requires ValidDate(d)
    ensures DayNumber(NextDay(d)) == DayNumber(d) + 1
  {
    if d.day == DaysInMonth(d.year, d.month) {
      if d.month < 12 {
        MonthStep(d.year, d.month + 1);
      } else {
        YearEnd(d.year);
      }
    }
  }

  /** The day before `d`. */
  function PrevDay(d: Date): (r: Date)
    requires ValidDate(d)
    ensures ValidDate(r)
  {
    if d.day > 1 then d.(day := d.day - 1)
    else if d.month > 1 then Date(d.year, d.month - 1, DaysInMonth(d.year, d.month - 1))
    else Date(d.year - 1, 12, 31)
  }

  /** The day before is one day number back, across month and year starts. */
  lemma PrevDayNumber(d: Date)
    requires ValidDate(d)
    ensures DayNumber(PrevDay(d)) == DayNumber(d) - 1
  {
    if d.day == 1 {
      if d.month > 1 {
        MonthStep(d.year, d.month);
      } else {
        YearEnd(d.year - 1);
      }
    }
  }

  /** `date.setDate(date.getDate() + k)`: moves `d` by `k` days, across months and years. */
  function AddDays(d: Date, k: int): (r: Date)
    requires ValidDate(d)
    ensures ValidDate(r)
    decreases if k < 0 then -k else k
  {
    if k == 0 then d
    else if k > 0 then AddDays(NextDay(d), k - 1)
    else AddDays(PrevDay(d), k + 1)
  }

  /** Moving by `k` days moves the day number by exactly `k`. */
  lemma {:induction false} AddDaysNumber(d: Date, k: int)
    requires ValidDate(d)
    ensures DayNumber(AddDays(d, k)) == DayNumber(d) + k
    decreases if k < 0 then -k else k
  {
    if k > 0 {
      NextDayNumber(d);
      AddDaysNumber(NextDay(d), k - 1);
    } else if k < 0 {
      PrevDayNumber(d);
      AddDaysNumber(PrevDay(d), k + 1);
    }
  }

  /** Moving forward inside a month only changes the day of the month. */
  lemma {:induction false} AddDaysWithinMonth(d: Date, k: nat)
    requires ValidDate(d) && d.day + k <= DaysInMonth(d.year, d.month)
    ensures AddDays(d, k) == d.(day := d.day + k)
    decreases k
  {
    if k > 0 {
      AddDaysFirstStep(d, k);
      AddDaysWithinMonth(d.(day := d.day + 1), k - 1);
    }
  }

  /** The first of `k` days forward, taken inside the month. */
  lemma AddDaysFirstStep(d: Date, k: nat)
    requires ValidDate(d) && 0 < k && d.day < DaysInMonth(d.year, d.month)
    ensures ValidDate(d.(day := d.day + 1)) && AddDays(d, k) == AddDays(d.(day := d.day + 1), k - 1)
  {
    assert NextDay(d) == d.(day := d.day + 1);
  }

  /** The month after (`y`, `m`), as `new Date(y, m + 1, ...)` rolls December into January. */
  function NextMonth(y: int, m: int): (r: (int, int))
    requires 1 <= m <= 12
    ensures 1 <= r.1 <= 12
    ensures r.1 == (if m == 12 then 1 else m + 1) && r.0 == (if m == 12 then y + 1 else y)
  {
    if m == 12 then (y + 1, 1) else (y, m + 1)
  }

  /** `new Date(y, m, 0)` seen from month `m`: the last day of the month. */
  function LastDayOfMonth(y: int, m: int): (r: Date)
    requires 1 <= m <= 12
    ensures ValidDate(r) && r.year == y && r.month == m
    ensures NextDay(r).day == 1 && NextDay(r).month == NextMonth(y, m).1
  {
    Date(y, m, DaysInMonth(y, m))
  }

  /** Within one month, day numbers advance with the day of the month. */
  lemma SameMonthOffset(d: Date, e: Date)
    requires 1 <= d.month <= 12 && d.year == e.year && d.month == e.month
    ensures DayNumber(e) - DayNumber(d) == e.day - d.day
  {
  }

  lemma WeekdayShift(d: Date, k: int)
    requires 1 <= d.month <= 12
    ensures Weekday(d.(day := d.day + k)) == (Weekday(d) + k) % 7
  {
  }

  /** A known date: 14 August 2025 was a Thursday. */
  lemma ThursdayCheck()
    ensures Weekday(Date(2025, 8, 14)) == 4
  {
  }
}

// The proleptic Gregorian calendar in UTC, on whole seconds counted from 0000-01-01T00:00:00Z.
module Calendar {

  const SECONDS_PER_DAY := 86400

  datatype Civil = Civil(year: int, month: int, day: int, hour: int, minute: int, second: int)

  predicate LeapYear(y: int) {
    y % 4 == 0 && (y % 100 != 0 || y % 400 == 0)
  }

  function DaysInMonth(y: int, m: int): (d: int)
    requires 1 <= m <= 12
    ensures 28 <= d <= 31
  {
    if m == 2 then (if LeapYear(y) then 29 else 28)
    else if m == 4 || m == 6 || m == 9 || m == 11 then 30
    else 31
  }

  function DaysInYear(y: int): int {
    if LeapYear(y) then 366 else 365
  }

  // Days from 0000-01-01 to the first day of the year.
  function DaysBeforeYear(y: int): int {
    365 * y + (y + 3) / 4 - (y + 99) / 100 + (y + 399) / 400
  }

  function DaysBeforeMonth(y: int, m: int): int
    requires 1 <= m <= 13
    decreases m
  {
    if m == 1 then 0 else DaysBeforeMonth(y, m - 1) + DaysInMonth(y, m - 1)
  }

  lemma {:induction false} YearLength(y: int)
    ensures DaysBeforeYear(y + 1) == DaysBeforeYear(y) + DaysInYear(y)
  {
    assert (y + 4) / 4 == (y + 3) / 4 + if y % 4 == 0 then 1 else 0;
    assert (y + 100) / 100 == (y + 99) / 100 + if y % 100 == 0 then 1 else 0;
    assert (y + 400) / 400 == (y + 399) / 400 + if y % 400 == 0 then 1 else 0;
    if y % 400 == 0 {
      assert y % 100 == 0 && y % 4 == 0;
    } else if y % 100 == 0 {
      assert y % 4 == 0;
    }
  }

  lemma {:induction false} YearsMonotone(y: int, z: int)
    requires y <= z
    ensures DaysBeforeYear(y) <= DaysBeforeYear(z)
    decreases z - y
  {
    if y < z {
      YearLength(z - 1);
      YearsMonotone(y, z - 1);
    }
  }

  lemma {:induction false} MonthsFillYear(y: int)
    ensures DaysBeforeMonth(y, 13) == DaysInYear(y)
  {
    assert DaysBeforeMonth(y, 4) == DaysBeforeMonth(y, 2) + DaysInMonth(y, 2) + 31;
    assert DaysBeforeMonth(y, 8) == DaysBeforeMonth(y, 4) + 30 + 31 + 30 + 31;
    assert DaysBeforeMonth(y, 12) == DaysBeforeMonth(y, 8) + 31 + 30 + 31 + 30;
  }

  lemma {:induction false} MonthsMonotone(y: int, m: int, n: int)
    requires 1 <= m <= n <= 13
    ensures DaysBeforeMonth(y, m) <= DaysBeforeMonth(y, n)
    decreases n
  {
    if m < n {
      MonthsMonotone(y, m, n - 1);
    }
  }

  predicate ValidDate(y: int, m: int, d: int) {
    1 <= m <= 12 && 1 <= d <= DaysInMonth(y, m)
  }

  predicate Valid(c: Civil) {
    ValidDate(c.year, c.month, c.day) && 0 <= c.hour < 24 && 0 <= c.minute < 60 && 0 <= c.second < 60
  }

  function DayNumber(y: int, m: int, d: int): int
    requires ValidDate(y, m, d)
  {
    DaysBeforeYear(y) + DaysBeforeMonth(y, m) + d - 1
  }

  function ToSeconds(c: Civil): int
    requires Valid(c)
  {
    DayNumber(c.year, c.month, c.day) * SECONDS_PER_DAY + c.hour * 3600 + c.minute * 60 + c.second
  }

  // The year whose days contain the given day, searching from y.
  function YearOf(day: int, y: int): (r: int)
    ensures DaysBeforeYear(r) <= day < DaysBeforeYear(r + 1)
    decreases if day < DaysBeforeYear(y) then DaysBeforeYear(y) - day else day - DaysBeforeYear(y)
  {
    YearLength(y);
    YearLength(y - 1);
    if day < DaysBeforeYear(y) then
      if DaysBeforeYear(y - 1) <= day then y - 1 else YearOf(day, y - 1)
    else if DaysBeforeYear(y + 1) <= day then YearOf(day, y + 1)
    else y
  }

  function MonthOf(y: int, dayOfYear: int, m: int): (r: int)
    requires 1 <= m <= 12
    requires DaysBeforeMonth(y, m) <= dayOfYear < DaysBeforeMonth(y, 13)
    ensures 1 <= r <= 12
    ensures DaysBeforeMonth(y, r) <= dayOfYear < DaysBeforeMonth(y, r + 1)
    decreases 13 - m
  {
    if dayOfYear < DaysBeforeMonth(y, m + 1) then m else MonthOf(y, dayOfYear, m + 1)
  }

  datatype Date = Date(year: int, month: int, day: int)

  function DateOf(day: int): (d: Date)
    ensures ValidDate(d.year, d.month, d.day) && DayNumber(d.year, d.month, d.day) == day
  {
    var y := YearOf(day, day / 366);
    YearLength(y);
    MonthsFillYear(y);
    var dayOfYear := day - DaysBeforeYear(y);
    var m := MonthOf(y, dayOfYear, 1);
    Date(y, m, dayOfYear - DaysBeforeMonth(y, m) + 1)
  }

  lemma {:induction false} TimeFields(time: int)
    requires 0 <= time < SECONDS_PER_DAY
    ensures 0 <= time / 3600 < 24 && 0 <= time % 3600 / 60 < 60 && 0 <= time % 60 < 60
    ensures time == time / 3600 * 3600 + time % 3600 / 60 * 60 + time % 60
  {
    var rest := time % 3600;
    assert rest % 60 == time % 60 by {
      assert time == 60 * (60 * (time / 3600)) + rest;
    }
  }

  function CivilOf(seconds: int): (c: Civil)
    ensures Valid(c) && ToSeconds(c) == seconds
  {
    hide DayNumber, ValidDate, DateOf;
    var d := DateOf(seconds / SECONDS_PER_DAY);
    var time := seconds % SECONDS_PER_DAY;
    TimeFields(time);
    Civil(d.year, d.month, d.day, time / 3600, time % 3600 / 60, time % 60)
  }

  // Field by field, most significant first.
  predicate Earlier(a: Civil, b: Civil) {
    a.year < b.year || (a.year == b.year && (
      a.month < b.month || (a.month == b.month && (
        a.day < b.day || (a.day == b.day && (
          a.hour < b.hour || (a.hour == b.hour && (
            a.minute < b.minute || (a.minute == b.minute && a.second < b.second)))))))))
  }

  lemma {:induction false} DayBounds(y: int, m: int, d: int)
    requires ValidDate(y, m, d)
    ensures DaysBeforeYear(y) <= DayNumber(y, m, d) < DaysBeforeYear(y + 1)
  {
    YearLength(y);
    MonthsFillYear(y);
    MonthsMonotone(y, 1, m);
    MonthsMonotone(y, m + 1, 13);
  }

  lemma {:induction false} EarlierDates(a: Civil, b: Civil)
    requires Valid(a) && Valid(b)
    requires a.year < b.year || (a.year == b.year && (a.month < b.month || (a.month == b.month && a.day < b.day)))
    ensures DayNumber(a.year, a.month, a.day) < DayNumber(b.year, b.month, b.day)
  {
    if a.year < b.year {
      DayBounds(a.year, a.month, a.day);
      DayBounds(b.year, b.month, b.day);
      YearsMonotone(a.year + 1, b.year);
    } else if a.month < b.month {
      MonthsMonotone(a.year, a.month + 1, b.month);
    }
  }

  lemma {:induction false} EarlierIsLessSeconds(a: Civil, b: Civil)
    requires Valid(a) && Valid(b) && Earlier(a, b)
    ensures ToSeconds(a) < ToSeconds(b)
  {
    if a.year != b.year || a.month != b.month || a.day != b.day {
      EarlierDates(a, b);
    }
  }

  // Chronological order of instants is the field order of their civil times.
  lemma {:induction false} SecondsOrder(a: Civil, b: Civil)
    requires Valid(a) && Valid(b)
    ensures ToSeconds(a) < ToSeconds(b) <==> Earlier(a, b)
    ensures ToSeconds(a) == ToSeconds(b) <==> a == b
  {
    if Earlier(a, b) {
      EarlierIsLessSeconds(a, b);
    } else if Earlier(b, a) {
      EarlierIsLessSeconds(b, a);
    } else {
      assert a == b;
    }
  }
}

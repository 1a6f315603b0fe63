/**
 Civil time in UTC down to the minute, in the proleptic Gregorian calendar.
 */
module Calendar {

  datatype Civil = Civil(year: int, month: int, day: int, hour: int, minute: int)

  predicate Leap(y: int) {
    y % 4 == 0 && (y % 100 != 0 || y % 400 == 0)
  }

  function DaysIn(y: int, m: int): int {
    if m == 2 then (if Leap(y) then 29 else 28)
    else if m == 4 || m == 6 || m == 9 || m == 11 then 30
    else 31
  }

  predicate Valid(c: Civil) {
    1 <= c.month <= 12 && 1 <= c.day <= DaysIn(c.year, c.month) && 0 <= c.hour < 24 && 0 <= c.minute < 60
  }

  // ---- Counting ----

  function DaysBeforeYear(y: int): int {
    365 * (y - 1) + (y - 1) / 4 - (y - 1) / 100 + (y - 1) / 400
  }

  function DaysBeforeMonth(y: int, m: int): int
    requires 1 <= m <= 13
  {
    if m == 1 then 0 else DaysBeforeMonth(y, m - 1) + DaysIn(y, m - 1)
  }

  /** Days since 1 January of year 1. */
  function DayNumber(y: int, m: int, d: int): int
    requires 1 <= m <= 13
  {
    DaysBeforeYear(y) + DaysBeforeMonth(y, m) + d - 1
  }

  /** 1 January of year 1 was a Monday; Sunday is 0. */
  function Weekday(c: Civil): int
    requires Valid(c)
  {
    (DayNumber(c.year, c.month, c.day) + 1) % 7
  }

  function Minutes(c: Civil): int
    requires Valid(c)
  {
    (DayNumber(c.year, c.month, c.day) * 24 + c.hour) * 60 + c.minute
  }

  // ---- Order ----

  predicate DateLess(a: Civil, b: Civil) {
    a.year < b.year || (a.year == b.year && (a.month < b.month || (a.month == b.month && a.day < b.day)))
  }

  predicate SameDate(a: Civil, b: Civil) {
    a.year == b.year && a.month == b.month && a.day == b.day
  }

  predicate Earlier(a: Civil, b: Civil) {
    DateLess(a, b) || (SameDate(a, b) && (a.hour < b.hour || (a.hour == b.hour && a.minute < b.minute)))
  }

  lemma {:induction false} Quotients(y: int)
    ensures y / 4 == (y - 1) / 4 + if y % 4 == 0 then 1 else 0
    ensures y / 100 == (y - 1) / 100 + if y % 100 == 0 then 1 else 0
    ensures y / 400 == (y - 1) / 400 + if y % 400 == 0 then 1 else 0
  {
  }

  lemma {:induction false} Divisors(y: int)
    ensures (y % 400 == 0 ==> y % 100 == 0) && (y % 100 == 0 ==> y % 4 == 0)
  {
  }

  lemma {:induction false} YearLength(y: int)
    ensures DaysBeforeYear(y + 1) == DaysBeforeYear(y) + DaysBeforeMonth(y, 13)
  {
    MonthsOfYear(y);
    Quotients(y);
    Divisors(y);
    YearSum(y, y / 4, y / 100, y / 400, (y - 1) / 4, (y - 1) / 100, (y - 1) / 400);
  }

  lemma {:induction false} YearSum(y: int, a: int, b: int, c: int, a': int, b': int, c': int)
    requires a == y / 4 && b == y / 100 && c == y / 400 && a' == (y - 1) / 4 && b' == (y - 1) / 100
    requires c' == (y - 1) / 400
    ensures DaysBeforeYear(y + 1) - DaysBeforeYear(y) == 365 + (a - a') - (b - b') + (c - c')
  {
  }

  lemma {:induction false} MonthsOfYear(y: int)
    ensures DaysBeforeMonth(y, 13) == 365 + if Leap(y) then 1 else 0
  {
    assert DaysBeforeMonth(y, 3) == DaysBeforeMonth(y, 2) + DaysIn(y, 2);
    assert DaysBeforeMonth(y, 2) == DaysBeforeMonth(y, 1) + 31;
    assert DaysBeforeMonth(y, 5) == DaysBeforeMonth(y, 4) + 30 && DaysBeforeMonth(y, 4) == DaysBeforeMonth(y, 3) + 31;
    assert DaysBeforeMonth(y, 7) == DaysBeforeMonth(y, 6) + 30 && DaysBeforeMonth(y, 6) == DaysBeforeMonth(y, 5) + 31;
    assert DaysBeforeMonth(y, 9) == DaysBeforeMonth(y, 8) + 31 && DaysBeforeMonth(y, 8) == DaysBeforeMonth(y, 7) + 31;
    assert DaysBeforeMonth(y, 11) == DaysBeforeMonth(y, 10) + 31
      && DaysBeforeMonth(y, 10) == DaysBeforeMonth(y, 9) + 30;
    assert DaysBeforeMonth(y, 13) == DaysBeforeMonth(y, 12) + 31
      && DaysBeforeMonth(y, 12) == DaysBeforeMonth(y, 11) + 30;
  }

  lemma {:induction false} LaterYear(a: int, b: int)
    requires a < b
    ensures DaysBeforeYear(a) + DaysBeforeMonth(a, 13) <= DaysBeforeYear(b)
    decreases b - a
  {
    YearLength(b - 1);
    if a < b - 1 {
      LaterYear(a, b - 1);
      MonthsOfYear(b - 1);
    }
  }

  lemma {:induction false} LaterMonth(y: int, m: int, n: int)
    requires 1 <= m < n <= 13
    ensures DaysBeforeMonth(y, m) + DaysIn(y, m) <= DaysBeforeMonth(y, n)
    decreases n - m
  {
    if m < n - 1 {
      LaterMonth(y, m, n - 1);
    }
  }

  lemma {:induction false} DateOrder(a: Civil, b: Civil)
    requires Valid(a) && Valid(b) && DateLess(a, b)
    ensures DayNumber(a.year, a.month, a.day) < DayNumber(b.year, b.month, b.day)
  {
    LaterMonth(a.year, a.month, 13);
    if a.year < b.year {
      LaterYear(a.year, b.year);
      FromJanuary(b.year, b.month);
    } else if a.month < b.month {
      LaterMonth(a.year, a.month, b.month);
    }
  }

  lemma {:induction false} FromJanuary(y: int, m: int)
    requires 1 <= m <= 13
    ensures DaysBeforeMonth(y, m) >= 0
  {
    if m > 1 {
      LaterMonth(y, 1, m);
    }
  }

  lemma {:induction false} EarlierCounts(a: Civil, b: Civil)
    requires Valid(a) && Valid(b) && Earlier(a, b)
    ensures Minutes(a) < Minutes(b)
  {
    if DateLess(a, b) {
      DateOrder(a, b);
    }
  }

  /** Counting minutes agrees with comparing years, months, days, hours and minutes in turn. */
  lemma {:induction false} OrderIff(a: Civil, b: Civil)
    requires Valid(a) && Valid(b)
    ensures Minutes(a) < Minutes(b) <==> Earlier(a, b)
    ensures Minutes(a) == Minutes(b) <==> a == b
  {
    if Earlier(a, b) {
      EarlierCounts(a, b);
    } else if a != b {
      EarlierCounts(b, a);
    }
  }

  // ---- Normalising dates ----

  /** Midnight on the first day of the month after `c`. */
  function NextMonth(c: Civil): Civil {
    if c.month == 12 then Civil(c.year + 1, 1, 1, 0, 0) else Civil(c.year, c.month + 1, 1, 0, 0)
  }

  /** Midnight on the day after `c`: a day too many is the first of the next month. */
  function NextDay(c: Civil): Civil {
    if c.day + 1 > DaysIn(c.year, c.month) then NextMonth(c) else Civil(c.year, c.month, c.day + 1, 0, 0)
  }

  function NextHour(c: Civil): Civil {
    if c.hour + 1 == 24 then NextDay(c) else c.(hour := c.hour + 1, minute := 0)
  }

  function NextMinute(c: Civil): Civil {
    if c.minute + 1 == 60 then NextHour(c) else c.(minute := c.minute + 1)
  }

  /** Five years later; 29 February becomes 1 March. */
  function FiveYears(c: Civil): Civil {
    if c.day > DaysIn(c.year + 5, c.month) then Civil(c.year + 5, c.month + 1, 1, c.hour, c.minute)
      else c.(year := c.year + 5)
  }

  lemma {:induction false} FiveYearsValid(c: Civil)
    requires Valid(c)
    ensures Valid(FiveYears(c)) && Earlier(c, FiveYears(c))
  {
  }

  /** The jumps are valid times, and what they pass over shares the month, day, hour or minute left behind. */
  lemma {:induction false} MonthJump(c: Civil, x: Civil)
    requires Valid(c) && Valid(x)
    ensures Valid(NextMonth(c)) && Earlier(c, NextMonth(c))
    ensures !Earlier(x, c) && Earlier(x, NextMonth(c)) ==> x.year == c.year && x.month == c.month
  {
  }

  lemma {:induction false} DayJump(c: Civil, x: Civil)
    requires Valid(c) && Valid(x)
    ensures Valid(NextDay(c)) && Earlier(c, NextDay(c))
    ensures !Earlier(x, c) && Earlier(x, NextDay(c)) ==> SameDate(x, c)
  {
  }

  lemma {:induction false} HourJump(c: Civil, x: Civil)
    requires Valid(c) && Valid(x)
    ensures Valid(NextHour(c)) && Earlier(c, NextHour(c))
    ensures !Earlier(x, c) && Earlier(x, NextHour(c)) ==> SameDate(x, c) && x.hour == c.hour
  {
  }

  lemma {:induction false} MinuteJump(c: Civil, x: Civil)
    requires Valid(c) && Valid(x)
    ensures Valid(NextMinute(c)) && Earlier(c, NextMinute(c))
    ensures !Earlier(x, c) && Earlier(x, NextMinute(c)) ==> x == c
  {
  }

  /** The next minute is one minute later. */
  lemma {:induction false} MinuteStep(c: Civil)
    requires Valid(c)
    ensures Valid(NextMinute(c)) && Minutes(NextMinute(c)) == Minutes(c) + 1
  {
    MinuteJump(c, c);
    if c.minute == 59 && c.hour == 23 && c.day == DaysIn(c.year, c.month) {
      if c.month == 12 {
        YearLength(c.year);
      }
    }
  }

  /** The limit is the same date and time five years on, and 1 March where 29 February does not exist. */
  lemma {:induction false} FiveYearsOn(c: Civil)
    requires Valid(c)
    ensures Valid(c.(year := c.year + 5)) ==> FiveYears(c) == c.(year := c.year + 5)
    ensures !Valid(c.(year := c.year + 5)) ==> c.month == 2 && c.day == 29
    ensures !Valid(c.(year := c.year + 5)) ==> FiveYears(c) == Civil(c.year + 5, 3, 1, c.hour, c.minute)
  {
  }

  // ---- Days of the week ----

  lemma {:induction false} DayStep(c: Civil)
    requires Valid(c)
    ensures Valid(NextDay(c))
    ensures DayNumber(NextDay(c).year, NextDay(c).month, NextDay(c).day) == DayNumber(c.year, c.month, c.day) + 1
  {
    if c.day == DaysIn(c.year, c.month) && c.month == 12 {
      YearLength(c.year);
    }
  }

  /** 1 January 1970 was a Thursday. */
  lemma {:induction false} WeekdayAnchor(c: Civil)
    requires Valid(c) && c.year == 1970 && c.month == 1 && c.day == 1
    ensures Weekday(c) == 4
  {
    assert DaysBeforeMonth(1970, 1) == 0;
  }

  /** Each day has the weekday after that of the day before. */
  lemma {:induction false} WeekdayStep(c: Civil)
    requires Valid(c)
    ensures Valid(NextDay(c)) && Weekday(NextDay(c)) == (Weekday(c) + 1) % 7
  {
    DayStep(c);
  }

  /** What any reckoning of weekdays must do: Thursday at the start of 1970, one further each day, the same all day. */
  ghost predicate IsReckoning(f: Civil -> int) {
    && (forall c :: Valid(c) ==> 0 <= f(c) < 7)
    && (forall c :: Valid(c) && c.year == 1970 && c.month == 1 && c.day == 1 ==> f(c) == 4)
    && (forall c :: Valid(c) ==> f(NextDay(c)) == (f(c) + 1) % 7)
    && (forall a, b :: Valid(a) && Valid(b) && SameDate(a, b) ==> f(a) == f(b))
  }

  function DayBefore(c: Civil): Civil {
    if c.day > 1 then Civil(c.year, c.month, c.day - 1, 0, 0)
    else if c.month > 1 then Civil(c.year, c.month - 1, DaysIn(c.year, c.month - 1), 0, 0)
    else Civil(c.year - 1, 12, 31, 0, 0)
  }

  lemma {:induction false} DayBeforeNext(c: Civil)
    requires Valid(c)
    ensures Valid(DayBefore(c)) && Valid(NextDay(DayBefore(c))) && SameDate(NextDay(DayBefore(c)), c)
  {
  }

  ghost function DaysFrom1970(c: Civil): int
    requires Valid(c)
  {
    DayNumber(c.year, c.month, c.day) - DayNumber(1970, 1, 1)
  }

  lemma {:induction false} FirstOf1970(c: Civil)
    requires Valid(c) && DaysFrom1970(c) == 0
    ensures c.year == 1970 && c.month == 1 && c.day == 1
  {
    var first := Civil(1970, 1, 1, 0, 0);
    if DateLess(c, first) {
      DateOrder(c, first);
    } else if DateLess(first, c) {
      DateOrder(first, c);
    }
  }

  lemma {:induction false} OneFurther(f: Civil -> int, c: Civil)
    requires IsReckoning(f) && Valid(c) && Valid(NextDay(c))
    ensures f(NextDay(c)) == Weekday(NextDay(c)) <==> f(c) == Weekday(c)
  {
    WeekdayStep(c);
    assert f(NextDay(c)) == (f(c) + 1) % 7 && 0 <= f(c) < 7;
  }

  /** There is only one such reckoning, for all dates before and after, and it is `Weekday`. */
  lemma {:induction false} WeekdayUnique(f: Civil -> int, c: Civil)
    requires IsReckoning(f) && Valid(c)
    ensures f(c) == Weekday(c)
    decreases if DaysFrom1970(c) >= 0 then DaysFrom1970(c) else -DaysFrom1970(c)
  {
    var n := DaysFrom1970(c);
    if n == 0 {
      FirstOf1970(c);
      WeekdayAnchor(c);
    } else if n > 0 {
      var p := DayBefore(c);
      DayBeforeNext(c);
      DayStep(p);
      WeekdayUnique(f, p);
      OneFurther(f, p);
      assert f(NextDay(p)) == f(c);
    } else {
      DayStep(c);
      WeekdayUnique(f, NextDay(c));
      OneFurther(f, c);
    }
  }

  /** The Gregorian rule, by its consequences: 97 leap years and a whole number of weeks in every 400 years. */
  lemma {:induction false} GregorianCycle(y: int)
    ensures Leap(y + 400) == Leap(y) && DaysBeforeYear(y + 400) == DaysBeforeYear(y) + 400 * 365 + 97
    ensures (400 * 365 + 97) % 7 == 0
    ensures Leap(2024) && Leap(2000) && !Leap(1900) && !Leap(2023)
  {
    var a := y - 1;
    assert (a + 400) / 4 == a / 4 + 100 && (a + 400) / 100 == a / 100 + 4 && (a + 400) / 400 == a / 400 + 1;
  }
}

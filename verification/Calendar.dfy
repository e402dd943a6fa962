/** Civil dates as the backup rotation sees them: the proleptic Gregorian calendar, the week
    numbers of ISO 8601:2004 section 4.1.4, and the integer keys built from both. */
module Calendar {

  const MICROS_PER_DAY: int := 86_400_000_000
  const MICROS_PER_MINUTE: int := 60_000_000

  /** A moment at one fixed UTC offset. `micros` counts from midnight. */
  datatype Civil = Civil(year: int, month: int, day: int, micros: int)

  predicate IsLeap(y: int) {
    y % 4 == 0 && (y % 100 != 0 || y % 400 == 0)
  }

  function DaysInMonth(y: int, m: int): int {
    if m == 2 then (if IsLeap(y) then 29 else 28)
    else if m == 4 || m == 6 || m == 9 || m == 11 then 30
    else 31
  }

  predicate IsCivil(c: Civil) {
    && 1 <= c.year <= 9999
    && 1 <= c.month <= 12
    && 1 <= c.day <= DaysInMonth(c.year, c.month)
    && 0 <= c.micros < MICROS_PER_DAY
  }

  type DateTime = c: Civil | IsCivil(c) witness Civil(1970, 1, 1, 0)

  function DaysBeforeYear(y: int): int {
    (y - 1) * 365 + (y - 1) / 4 - (y - 1) / 100 + (y - 1) / 400
  }

  function DaysBeforeMonth(y: int, m: int): int
    decreases m
  {
    if m <= 1 then 0 else DaysBeforeMonth(y, m - 1) + DaysInMonth(y, m - 1)
  }

  /** Day count in which 1 is Monday, 1 January of year 1. */
  function Ordinal(d: DateTime): int {
    DaysBeforeYear(d.year) + DaysBeforeMonth(d.year, d.month) + d.day
  }

  /** Position on the time line; `created_at` values are compared by it. */
  function Instant(d: DateTime): int {
    Ordinal(d) * MICROS_PER_DAY + d.micros
  }

  // ----- Rotation keys -----

  function DailyKey(d: DateTime): int { d.year * 10000 + d.month * 100 + d.day }

  function MonthlyKey(d: DateTime): int { d.year * 100 + d.month }

  function YearlyKey(d: DateTime): int { d.year }

  /** The key as written: calendar year and ISO week number, which belong to different calendars. */
  function WeeklyKey(d: DateTime): int { d.year * 100 + IsoWeek(d).1 }

  // ----- Order of dates -----

  predicate EarlierDay(a: DateTime, b: DateTime) {
    || a.year < b.year
    || (a.year == b.year && (a.month < b.month || (a.month == b.month && a.day < b.day)))
  }

  lemma YearLength(y: int)
    ensures DaysBeforeYear(y + 1) == DaysBeforeYear(y) + (if IsLeap(y) then 366 else 365)
  {
    assert y / 4 - (y - 1) / 4 == if y % 4 == 0 then 1 else 0;
    assert y / 100 - (y - 1) / 100 == if y % 100 == 0 then 1 else 0;
    assert y / 400 - (y - 1) / 400 == if y % 400 == 0 then 1 else 0;
  }

  lemma {:induction false} YearsGrow(y: int, z: int)
    requires y <= z
    ensures DaysBeforeYear(y) + 365 * (z - y) <= DaysBeforeYear(z)
    decreases z - y
  {
    if y < z {
      YearsGrow(y, z - 1);
      YearLength(z - 1);
    }
  }

  lemma {:induction false} MonthsGrow(y: int, m: int, n: int)
    requires 1 <= m < n
    ensures DaysBeforeMonth(y, m) + DaysInMonth(y, m) <= DaysBeforeMonth(y, n)
    decreases n
  {
    if m < n - 1 {
      MonthsGrow(y, m, n - 1);
    }
  }

  lemma MonthsFillYear(y: int)
    ensures DaysBeforeMonth(y, 13) == if IsLeap(y) then 366 else 365
  {
    assert DaysBeforeMonth(y, 4) == 59 + (if IsLeap(y) then 1 else 0) + 31;
    assert DaysBeforeMonth(y, 7) == DaysBeforeMonth(y, 4) + 91;
    assert DaysBeforeMonth(y, 10) == DaysBeforeMonth(y, 7) + 92;
  }

  /** The day count of a date lies inside its own year. */
  lemma OrdinalInYear(d: DateTime)
    ensures DaysBeforeYear(d.year) < Ordinal(d) <= DaysBeforeYear(d.year + 1)
  {
    MonthsGrow(d.year, d.month, 13);
    MonthsFillYear(d.year);
    YearLength(d.year);
    if d.month > 1 {
      MonthsGrow(d.year, 1, d.month);
    }
  }

  /** Counting days agrees with comparing year, month and day in turn. */
  lemma OrdinalOrder(a: DateTime, b: DateTime)
    ensures Ordinal(a) < Ordinal(b) <==> EarlierDay(a, b)
  {
    if EarlierDay(a, b) {
      OrdinalStrict(a, b);
    } else if EarlierDay(b, a) {
      OrdinalStrict(b, a);
    }
  }

  lemma OrdinalStrict(a: DateTime, b: DateTime)
    requires EarlierDay(a, b)
    ensures Ordinal(a) < Ordinal(b)
  {
    if a.year < b.year {
      EarlierYear(a, b);
    } else if a.month < b.month {
      MonthsGrow(a.year, a.month, b.month);
    }
  }

  lemma EarlierYear(a: DateTime, b: DateTime)
    requires a.year < b.year
    ensures Ordinal(a) < Ordinal(b)
  {
    OrdinalInYear(a);
    OrdinalInYear(b);
    YearsGrow(a.year + 1, b.year);
  }

  /** The order of `created_at` values is that of their fields, read from the year down to the time
      of day; and within a day instants are as far apart as the times of day. */
  lemma InstantOrder(a: DateTime, b: DateTime)
    ensures Instant(a) < Instant(b) <==>
              || a.year < b.year
              || (a.year == b.year && a.month < b.month)
              || (a.year == b.year && a.month == b.month && a.day < b.day)
              || (a.year == b.year && a.month == b.month && a.day == b.day && a.micros < b.micros)
    ensures a.year == b.year && a.month == b.month && a.day == b.day ==>
              Instant(a) - Instant(b) == a.micros - b.micros
  {
    OrdinalOrder(a, b);
    OrdinalOrder(b, a);
  }

  /** A day is 24 hours long, at the end of a month or a year as within it. */
  lemma NextDay(a: DateTime, b: DateTime)
    requires a.micros == b.micros
    requires || (b.year == a.year && b.month == a.month && b.day == a.day + 1)
             || (b.year == a.year && b.month == a.month + 1 && a.day == DaysInMonth(a.year, a.month) && b.day == 1)
             || (b.year == a.year + 1 && a.month == 12 && a.day == 31 && b.month == b.day == 1)
    ensures Instant(b) - Instant(a) == 24 * 60 * 60 * 1_000_000
  {
    if b.year > a.year {
      MonthsFillYear(a.year);
      YearLength(a.year);
    }
  }

  /** Thirty days have September, April, June and November; February has a leap day in years
      divisible by four, of the centuries only in those divisible by 400. */
  lemma MonthLengths(y: int, m: int)
    requires 1 <= m <= 12
    ensures DaysInMonth(y, m) ==
            if m == 2 && IsLeap(y) then 29 else [31, 28, 31, 30, 31, 30, 31, 31, 30, 31, 30, 31][m - 1]
    ensures IsLeap(y) <==> (if y % 100 == 0 then y % 400 == 0 else y % 4 == 0)
  {
  }

  /** Daily, monthly and yearly keys never decrease as time goes on. */
  lemma KeysFollowTime(a: DateTime, b: DateTime)
    requires Instant(a) <= Instant(b)
    ensures DailyKey(a) <= DailyKey(b)
    ensures MonthlyKey(a) <= MonthlyKey(b)
    ensures YearlyKey(a) <= YearlyKey(b)
  {
    OrdinalOrder(b, a);
    assert !EarlierDay(b, a);
  }

  // ----- ISO weeks -----

  /** Whole weeks since Monday, 1 January of year 1: two days share it exactly when they lie in
      the same Monday-to-Sunday week. */
  function WeekIndex(d: DateTime): int { (Ordinal(d) - 1) / 7 }

  /** Day count of the Thursday of the week a day lies in. */
  function Thursday(d: DateTime): int { 7 * WeekIndex(d) + 4 }

  /** The year that contains day count `t`, for `t` within a year of `year`. */
  function YearNear(year: int, t: int): int {
    if t <= DaysBeforeYear(year) then year - 1
    else if t > DaysBeforeYear(year + 1) then year + 1
    else year
  }

  /** ISO year and ISO week number: a week belongs to the year its Thursday lies in, and weeks
      are counted by their Thursdays. */
  function IsoWeek(d: DateTime): (w: (int, int)) {
    var year := YearNear(d.year, Thursday(d));
    (year, ThursdaysUpTo(Thursday(d) - DaysBeforeYear(year)))
  }

  /** Thursdays among the first `dayOfYear` days of a year, the last of them being a Thursday. */
  function ThursdaysUpTo(dayOfYear: int): int { (dayOfYear - 1) / 7 + 1 }

  lemma ThursdayNear(ordinal: int)
    ensures ordinal - 3 <= 7 * ((ordinal - 1) / 7) + 4 <= ordinal + 3
  {
  }

  /** The ISO year is the calendar year of the week's Thursday. */
  lemma IsoYearHoldsThursday(d: DateTime)
    ensures var y := IsoWeek(d).0;
            && d.year - 1 <= y <= d.year + 1
            && DaysBeforeYear(y) < Thursday(d) <= DaysBeforeYear(y + 1)
  {
    OrdinalInYear(d);
    ThursdayNear(Ordinal(d));
    YearsGrow(d.year - 1, d.year);
    YearsGrow(d.year + 1, d.year + 2);
  }

  lemma {:induction false} YearOfDayUnique(y: int, z: int, t: int)
    requires DaysBeforeYear(y) < t <= DaysBeforeYear(y + 1)
    requires DaysBeforeYear(z) < t <= DaysBeforeYear(z + 1)
    ensures y == z
  {
    if y < z {
      YearsGrow(y + 1, z);
    } else if z < y {
      YearsGrow(z + 1, y);
    }
  }

  lemma SameCountSameThursday(i: int, j: int, yearStart: int)
    requires ThursdaysUpTo(7 * i + 4 - yearStart) == ThursdaysUpTo(7 * j + 4 - yearStart)
    ensures i == j
  {
  }

  /** ISO week pairs name Monday-to-Sunday weeks one to one. */
  lemma IsoWeekNamesWeek(a: DateTime, b: DateTime)
    ensures IsoWeek(a) == IsoWeek(b) <==> WeekIndex(a) == WeekIndex(b)
  {
    if WeekIndex(a) == WeekIndex(b) {
      IsoYearHoldsThursday(a);
      IsoYearHoldsThursday(b);
      YearOfDayUnique(IsoWeek(a).0, IsoWeek(b).0, Thursday(a));
    } else if IsoWeek(a) == IsoWeek(b) {
      SameCountSameThursday(WeekIndex(a), WeekIndex(b), DaysBeforeYear(IsoWeek(a).0));
    }
  }

  /** Week 1 of an ISO year is the one with 4 January in it, and weeks are counted from there. */
  lemma IsoWeeksCountFromJanuary4(d: DateTime)
    ensures var january4 := DaysBeforeYear(IsoWeek(d).0) + 4;
            IsoWeek(d).1 == 1 + (Ordinal(d) - 1) / 7 - (january4 - 1) / 7
  {
    IsoYearHoldsThursday(d);
    WeeksFromYearStart(WeekIndex(d), DaysBeforeYear(IsoWeek(d).0));
  }

  lemma WeeksFromYearStart(week: int, start: int)
    ensures (7 * week + 4 - start - 1) / 7 == week - (start + 3) / 7
  {
  }

  /** ISO week numbers run from 1 to 53. */
  lemma IsoWeekRange(d: DateTime)
    ensures 1 <= IsoWeek(d).1 <= 53
  {
    IsoYearHoldsThursday(d);
    YearLength(IsoWeek(d).0);
  }

  /** For two days whose calendar year is also their ISO year, the weekly key tells their weeks
      apart correctly. */
  lemma WeeklyKeyInOrdinaryYears(a: DateTime, b: DateTime)
    requires IsoWeek(a).0 == a.year && IsoWeek(b).0 == b.year
    ensures WeeklyKey(a) == WeeklyKey(b) <==> WeekIndex(a) == WeekIndex(b)
  {
    WeeklyKeyParts(a, b);
    IsoWeekNamesWeek(a, b);
  }

  lemma WeeklyKeyParts(a: DateTime, b: DateTime)
    ensures WeeklyKey(a) == WeeklyKey(b) <==> a.year == b.year && IsoWeek(a).1 == IsoWeek(b).1
  {
    IsoWeekRange(a);
    IsoWeekRange(b);
  }

  /** The weekly key is not one-to-one on weeks: 2 January and 30 December 2024 share it. */
  lemma WeeklyKeyMergesWeeks(jan2: DateTime, dec30: DateTime)
    requires jan2 == Civil(2024, 1, 2, 0) && dec30 == Civil(2024, 12, 30, 0)
    ensures WeeklyKey(jan2) == 202401 && WeeklyKey(dec30) == 202401
    ensures WeekIndex(jan2) != WeekIndex(dec30)
  {
    Around2024(jan2, 738887, 105555);
    Around2024(dec30, 739250, 105607);
  }

  /** It is not constant on a week: Monday, 30 December 2024 and the Wednesday after differ. */
  lemma WeeklyKeySplitsWeek(dec30: DateTime, jan1: DateTime)
    requires dec30 == Civil(2024, 12, 30, 0) && jan1 == Civil(2025, 1, 1, 0)
    ensures WeeklyKey(dec30) != WeeklyKey(jan1) && WeekIndex(dec30) == WeekIndex(jan1)
    ensures Instant(dec30) < Instant(jan1)
  {
    Around2024(dec30, 739250, 105607);
    Around2024(jan1, 739252, 105607);
  }

  /** And it can fall as time goes on. */
  lemma WeeklyKeyFalls(dec20: DateTime, dec30: DateTime)
    requires dec20 == Civil(2024, 12, 20, 0) && dec30 == Civil(2024, 12, 30, 0)
    ensures Instant(dec20) < Instant(dec30) && WeeklyKey(dec20) > WeeklyKey(dec30)
  {
    Around2024(dec20, 739240, 105605);
    Around2024(dec30, 739250, 105607);
  }

  lemma Around2024(d: DateTime, ordinal: int, week: int)
    requires d.year == 2024 || d.year == 2025
    requires d.month == 1 || (d.year == 2024 && d.month == 12)
    requires ordinal == (if d.year == 2024 then 738885 else 739251) + (if d.month == 1 then 0 else 335) + d.day
    requires 7 * week < ordinal <= 7 * week + 7
    requires 105555 <= week <= 105607
    ensures Ordinal(d) == ordinal && WeekIndex(d) == week
    ensures WeeklyKey(d) == d.year * 100 + (if week == 105607 then 1 else week - 105554)
  {
    YearStarts();
    if d.month == 12 {
      DecemberOf2024();
    }
    assert Ordinal(d) == ordinal;
    assert WeekIndex(d) == week;
  }

  lemma YearStarts()
    ensures DaysBeforeYear(2024) == 738885 && DaysBeforeYear(2025) == 739251 && DaysBeforeYear(2026) == 739616
  {
  }

  lemma DecemberOf2024()
    ensures DaysBeforeMonth(2024, 12) == 335
  {
    assert DaysBeforeMonth(2024, 4) == 91;
    assert DaysBeforeMonth(2024, 7) == 182;
    assert DaysBeforeMonth(2024, 10) == 274;
  }

  lemma KeysPositive(d: DateTime)
    ensures 0 < DailyKey(d) && 0 < MonthlyKey(d) && 0 < YearlyKey(d) && 0 < WeeklyKey(d)
  {
    IsoWeekRange(d);
  }
}

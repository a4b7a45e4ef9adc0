/** The proleptic Gregorian calendar, as Go's time package computes it. Times are wall-clock seconds in
    one fixed zone, counted from Go's zero time, 1 January of year 1; day 0 is that day. */
module Calendar {

  const SECONDS_PER_DAY := 86400
  const DAYS_PER_CYCLE := 146097 // 400 years

  function Day(t: int): int {
    t / SECONDS_PER_DAY
  }

  predicate Leap(y: int) {
    y % 4 == 0 && (y % 100 != 0 || y % 400 == 0)
  }

  /** The day number of 1 January of year `y`. */
  function YearStart(y: int): int {
    365 * (y - 1) + (y - 1) / 4 - (y - 1) / 100 + (y - 1) / 400
  }

  lemma QuotientStep4(y: int)
    ensures y / 4 - (y - 1) / 4 == if y % 4 == 0 then 1 else 0
  {
  }

  lemma QuotientStep100(y: int)
    ensures y / 100 - (y - 1) / 100 == if y % 100 == 0 then 1 else 0
  {
  }

  lemma QuotientStep400(y: int)
    ensures y / 400 - (y - 1) / 400 == if y % 400 == 0 then 1 else 0
  {
  }

  lemma Multiples(y: int)
    ensures y % 100 == 0 ==> y % 4 == 0
    ensures y % 400 == 0 ==> y % 100 == 0
  {
    if y % 100 == 0 {
      assert y == 4 * (25 * (y / 100));
    }
    if y % 400 == 0 {
      assert y == 100 * (4 * (y / 400));
    }
  }

  lemma YearLength(y: int)
    ensures YearStart(y + 1) == YearStart(y) + if Leap(y) then 366 else 365
  {
    QuotientStep4(y);
    QuotientStep100(y);
    QuotientStep400(y);
    Multiples(y);
  }

  /** The year within a 400-year cycle that contains day `d`, searching from `y`. */
  function YearFrom(d: int, y: int): (r: int)
    requires 1 <= y <= 400 && YearStart(y) <= d < DAYS_PER_CYCLE
    ensures 1 <= r <= 400 && YearStart(r) <= d < YearStart(r + 1)
    decreases 400 - y
  {
    if y == 400 || d < YearStart(y + 1) then y else YearFrom(d, y + 1)
  }

  lemma CycleShift(y: int, c: int)
    ensures YearStart(y + 400 * c) == YearStart(y) + DAYS_PER_CYCLE * c
  {
    assert (y + 400 * c - 1) / 4 == (y - 1) / 4 + 100 * c;
    assert (y + 400 * c - 1) / 100 == (y - 1) / 100 + 4 * c;
    assert (y + 400 * c - 1) / 400 == (y - 1) / 400 + c;
  }

  function Year(d: int): (y: int)
    ensures YearStart(y) <= d < YearStart(y + 1)
  {
    var y := YearFrom(d % DAYS_PER_CYCLE, 1);
    CycleShift(y, d / DAYS_PER_CYCLE);
    CycleShift(y + 1, d / DAYS_PER_CYCLE);
    y + 400 * (d / DAYS_PER_CYCLE)
  }

  /** 1 on 1 January. */
  function YearDay(d: int): (n: int)
    ensures 1 <= n <= 366 && (n == 366 ==> Leap(Year(d)))
  {
    YearLength(Year(d));
    d - YearStart(Year(d)) + 1
  }

  /** 0 on Sundays; day 0 was a Monday. */
  function Weekday(d: int): int {
    (d + 1) % 7
  }

  /** Days of a year before month `m`. */
  function MonthStart(m: int, leap: bool): int
    requires 1 <= m <= 13
  {
    [0, 31, 59, 90, 120, 151, 181, 212, 243, 273, 304, 334, 365][m - 1] + if leap && m > 2 then 1 else 0
  }

  /** Thirty days hath September. */
  lemma MonthLengths(m: int, leap: bool)
    requires 1 <= m <= 12
    ensures MonthStart(m + 1, leap) - MonthStart(m, leap) ==
            if m == 2 then (if leap then 29 else 28) else if m in {4, 6, 9, 11} then 30 else 31
  {
  }

  function MonthFrom(n: int, leap: bool, m: int): (r: int)
    requires 1 <= m <= 12 && MonthStart(m, leap) < n <= MonthStart(13, leap)
    ensures 1 <= r <= 12 && MonthStart(r, leap) < n <= MonthStart(r + 1, leap)
    decreases 12 - m
  {
    if m == 12 || n <= MonthStart(m + 1, leap) then m else MonthFrom(n, leap, m + 1)
  }

  function Month(d: int): (m: int)
    ensures 1 <= m <= 12
  {
    MonthFrom(YearDay(d), Leap(Year(d)), 1)
  }

  function DayOfMonth(d: int): int {
    YearDay(d) - MonthStart(Month(d), Leap(Year(d)))
  }

  /** The Unix epoch, 1 January 1970, was a Thursday, and 1 January 2000 a Saturday; 2000 was a leap year,
      1900 was not. */
  lemma UnixEpoch()
    ensures YearStart(1970) == 719162 && Weekday(719162) == 4
    ensures YearStart(2000) == YearStart(1970) + 10957 && Weekday(YearStart(2000)) == 6
    ensures Leap(2000) && !Leap(1900) && Leap(2024) && !Leap(2023)
  {
  }

  /** The day number of a calendar date. */
  function DayNumber(y: int, m: int, k: int): int
    requires 1 <= m <= 12
  {
    YearStart(y) + MonthStart(m, Leap(y)) + k - 1
  }

  /** Months follow each other, fill the year and have at least 28 days. */
  lemma MonthsFillYear(m: int, leap: bool)
    requires 1 <= m <= 12
    ensures 0 <= MonthStart(m, leap) <= MonthStart(m + 1, leap) - 28
    ensures MonthStart(m + 1, leap) <= MonthStart(13, leap)
  {
  }

  lemma {:induction false} MonthIsUnique(n: int, leap: bool, m: int, from: int)
    requires 1 <= from <= m <= 12 && MonthStart(m, leap) < n <= MonthStart(m + 1, leap)
    requires MonthStart(from, leap) < n <= MonthStart(13, leap)
    ensures MonthFrom(n, leap, from) == m
    decreases m - from
  {
    if from < m {
      MonthsFillYear(from, leap);
      MonthsFillYear(from + 1, leap);
      MonthIsUnique(n, leap, m, from + 1);
    }
  }

  lemma {:induction false} YearsAreLong(y: int, z: int)
    requires y <= z
    ensures YearStart(z) - YearStart(y) >= 365 * (z - y)
    decreases z - y
  {
    if y < z {
      YearLength(z - 1);
      YearsAreLong(y, z - 1);
    }
  }

  lemma YearsDoNotOverlap(d: int, y: int, z: int)
    requires YearStart(y) <= d < YearStart(y + 1) && YearStart(z) <= d < YearStart(z + 1)
    ensures y == z
  {
    if y < z {
      YearsAreLong(y + 1, z);
    } else if z < y {
      YearsAreLong(z + 1, y);
    }
  }

  lemma YearIsUnique(d: int, y: int)
    requires YearStart(y) <= d < YearStart(y + 1)
    ensures Year(d) == y
  {
    YearsDoNotOverlap(d, y, Year(d));
  }

  /** Reading the date of a day number gives back the date it was made from. */
  lemma DateRoundTrip(y: int, m: int, k: int)
    requires 1 <= m <= 12 && 1 <= k <= MonthStart(m + 1, Leap(y)) - MonthStart(m, Leap(y))
    ensures var d := DayNumber(y, m, k);
            Year(d) == y && Month(d) == m && DayOfMonth(d) == k && YearDay(d) == MonthStart(m, Leap(y)) + k
  {
    var d := DayNumber(y, m, k);
    YearLength(y);
    MonthsFillYear(m, Leap(y));
    YearIsUnique(d, y);
    MonthIsUnique(YearDay(d), Leap(y), m, 1);
  }

  // ---------- When a calendar mark recurs ----------

  lemma YearsFollowDays(d: int, e: int)
    requires d <= e
    ensures Year(d) <= Year(e)
  {
    if Year(e) < Year(d) {
      YearsAreLong(Year(e) + 1, Year(d));
    }
  }

  /** The same day of the year comes back after 365 days at the earliest. */
  lemma YearDayRecurs(d: int, e: int)
    requires d < e && YearDay(d) == YearDay(e)
    ensures e - d >= 365
  {
    YearsFollowDays(d, e);
    YearsAreLong(Year(d), Year(e));
  }

  lemma FirstsAreApart(y: int, z: int, m: int)
    requires y < z && 1 <= m <= 12
    ensures YearStart(z) + MonthStart(m, Leap(z)) - (YearStart(y) + MonthStart(m, Leap(y))) >= 365
  {
    YearLength(y);
    YearsAreLong(y + 1, z);
  }

  /** So does the first day of the same month, although the leap day may lie on either side. */
  lemma MonthRecurs(d: int, e: int)
    requires d < e && DayOfMonth(d) == 1 && DayOfMonth(e) == 1 && Month(d) == Month(e)
    ensures e - d >= 365
  {
    var y, z, m := Year(d), Year(e), Month(d);
    YearsFollowDays(d, e);
    assert d == YearStart(y) + MonthStart(m, Leap(y)) && e == YearStart(z) + MonthStart(m, Leap(z));
    if y < z {
      FirstsAreApart(y, z, m);
    }
  }

  lemma NewYearIsUnique(d: int, e: int)
    requires YearDay(d) == 1 && YearDay(e) == 1 && Year(d) == Year(e)
    ensures d == e
  {
  }

  // ---------- Times ----------

  /** A `time.Time`, reduced to what orders it and to the answers of its calendar methods. `unix` stands for
      what Unix() answers, counted on the wall clock of the one zone and from the zero time instead of in
      UTC and from 1970; the two differ by a constant, and the code only compares them. */
  datatype Time = Time(unix: int, year: int, month: int, day: int, yearDay: int, weekday: int)

  /** The time `t` wall-clock seconds after the zero time. */
  function At(t: int): Time {
    var d := Day(t);
    Time(t, Year(d), Month(d), DayOfMonth(d), YearDay(d), Weekday(d))
  }

  const ZERO_TIME := Time(0, 1, 1, 1, 1, 1)

  /** `t` reads like the Gregorian calendar at its second, said without computing the date. */
  predicate Gregorian(t: Time) {
    var d := Day(t.unix);
    && YearStart(t.year) <= d < YearStart(t.year + 1)
    && t.yearDay == d - YearStart(t.year) + 1
    && 1 <= t.month <= 12
    && MonthStart(t.month, Leap(t.year)) < t.yearDay <= MonthStart(t.month + 1, Leap(t.year))
    && t.day == t.yearDay - MonthStart(t.month, Leap(t.year))
    && t.weekday == Weekday(d)
  }

  lemma GregorianIsComputed(t: Time)
    requires Gregorian(t)
    ensures t == At(t.unix)
  {
    YearIsUnique(Day(t.unix), t.year);
    MonthsFillYear(t.month, Leap(t.year));
    YearLength(t.year);
    MonthIsUnique(t.yearDay, Leap(t.year), t.month, 1);
  }

  /** Only one reading is Gregorian, the computed one. */
  lemma GregorianIff(t: Time)
    ensures Gregorian(t) <==> t == At(t.unix)
  {
    if Gregorian(t) {
      GregorianIsComputed(t);
    }
  }

  /** The given second of a date. */
  function Moment(y: int, m: int, k: int, second: int): Time
    requires 1 <= m <= 12
  {
    var d := DayNumber(y, m, k);
    Time(SECONDS_PER_DAY * d + second, y, m, k, MonthStart(m, Leap(y)) + k, Weekday(d))
  }

  lemma MomentIsGregorian(y: int, m: int, k: int, second: int)
    requires 1 <= m <= 12 && 1 <= k <= MonthStart(m + 1, Leap(y)) - MonthStart(m, Leap(y))
    requires 0 <= second < SECONDS_PER_DAY
    ensures Gregorian(Moment(y, m, k, second)) && Day(Moment(y, m, k, second).unix) == DayNumber(y, m, k)
  {
    assert Day(SECONDS_PER_DAY * DayNumber(y, m, k) + second) == DayNumber(y, m, k);
    MonthsFillYear(m, Leap(y));
    YearLength(y);
  }

  /** The first second of one of the first 28 days of a month. */
  lemma Midnight(y: int, m: int, k: int) returns (t: Time)
    requires 1 <= m <= 12 && 1 <= k <= 28
    ensures Gregorian(t) && t.year == y && t.month == m && t.day == k
    ensures SECONDS_PER_DAY * YearStart(y) <= t.unix < SECONDS_PER_DAY * YearStart(y + 1)
    ensures m == 1 ==> t.yearDay == k && t.weekday == (YearStart(y) + k) % 7
    ensures m == 1 ==> t.unix == SECONDS_PER_DAY * (YearStart(y) + k - 1)
  {
    t := Moment(y, m, k, 0);
    MonthsFillYear(m, Leap(y));
    MomentIsGregorian(y, m, k, 0);
  }
}

/** Proleptic Gregorian calendar arithmetic on day numbers counted from
    1970-01-01 (day 0), and the month arithmetic of a calendar-aware
    `+ n.months`: the day of month is kept and clamped to the target month. */
module Calendar {

  datatype Date = Date(year: int, month: int, day: int)

  predicate IsLeapYear(y: int) {
    y % 4 == 0 && (y % 100 != 0 || y % 400 == 0)
  }

  function DaysInYear(y: int): int {
    if IsLeapYear(y) then 366 else 365
  }

  function DaysInMonth(y: int, m: int): (n: int)
    requires 1 <= m <= 12
    ensures 28 <= n <= 31
    ensures m == 2 ==> (n == 29 <==> IsLeapYear(y))
  {
    if m == 2 then (if IsLeapYear(y) then 29 else 28)
    else if m == 4 || m == 6 || m == 9 || m == 11 then 30
    else 31
  }

  predicate ValidDate(d: Date) {
    1 <= d.month <= 12 && 1 <= d.day <= DaysInMonth(d.year, d.month)
  }

  /** Days of year `y` that lie before the first of month `m`. */
  function DaysBeforeMonth(y: int, m: int): int
    requires 1 <= m <= 12
  {
    var leap := if m > 2 && IsLeapYear(y) then 1 else 0;
    leap +
    (if m == 1 then 0 else if m == 2 then 31 else if m == 3 then 59
     else if m == 4 then 90 else if m == 5 then 120 else if m == 6 then 151
     else if m == 7 then 181 else if m == 8 then 212 else if m == 9 then 243
     else if m == 10 then 273 else if m == 11 then 304 else 334)
  }

  lemma DaysBeforeMonthStep(y: int, m: int)
    requires 1 <= m <= 12
    ensures m < 12 ==> DaysBeforeMonth(y, m + 1) == DaysBeforeMonth(y, m) + DaysInMonth(y, m)
    ensures m == 12 ==> DaysBeforeMonth(y, m) + DaysInMonth(y, m) == DaysInYear(y)
  {
  }

  /** Leap years strictly before year `y`, counted from a fixed origin. */
  function LeapYearsBefore(y: int): int {
    (y - 1) / 4 - (y - 1) / 100 + (y - 1) / 400
  }

  /** Day number of January 1 of year `y`. */
  function YearStart(y: int): int {
    365 * (y - 1970) + LeapYearsBefore(y) - LeapYearsBefore(1970)
  }

  /** Day number of a date (the days-from-civil conversion). */
  function DaysFromCivil(d: Date): int
    requires 1 <= d.month <= 12
  {
    YearStart(d.year) + DaysBeforeMonth(d.year, d.month) + d.day - 1
  }

  lemma MulAtLeast(a: int, d: int)
    requires a >= 1 && d > 0
    ensures a * d >= d
  {
  }

  /** A multiple of a positive `d` strictly between `-d` and `d` is zero. */
  lemma SmallMultipleIsZero(a: int, d: int)
    requires d > 0 && -d < a * d < d
    ensures a == 0
  {
    if a >= 1 {
      MulAtLeast(a, d);
    } else if a <= -1 {
      MulAtLeast(-a, d);
    }
  }

  /** Euclidean quotient and remainder are unique. */
  lemma DivUnique(x: int, d: int, q: int, r: int)
    requires d > 0 && 0 <= r < d && x == d * q + r
    ensures x / d == q && x % d == r
  {
    assert (x / d - q) * d == r - x % d;
    SmallMultipleIsZero(x / d - q, d);
  }

  /** Moving from `y - 1` to `y` raises the quotient by `d` exactly when `y`
      is a multiple of `d`. */
  lemma DivStep(y: int, d: int)
    requires d > 0
    ensures y / d - (y - 1) / d == (if y % d == 0 then 1 else 0)
  {
    var q, r := (y - 1) / d, (y - 1) % d;
    DivUnique(y - 1, d, q, r);
    if r == d - 1 {
      DivUnique(y, d, q + 1, 0);
    } else {
      DivUnique(y, d, q, r + 1);
    }
  }

  lemma YearStartStep(y: int)
    ensures YearStart(y + 1) == YearStart(y) + DaysInYear(y)
  {
    DivStep(y, 4);
    DivStep(y, 100);
    DivStep(y, 400);
  }

  /** Year starts stay within a day and a half of 365.2425 days per year. */
  lemma YearStartBounds(y: int)
    ensures 146097 * (y - 1970) - 506 <= 400 * YearStart(y) <= 146097 * (y - 1970) + 589
  {
    var x := y - 1;
    assert 4 * (x / 4) <= x < 4 * (x / 4) + 4;
    assert 100 * (x / 100) <= x < 100 * (x / 100) + 100;
    assert 400 * (x / 400) <= x < 400 * (x / 400) + 400;
    assert LeapYearsBefore(1970) == 477;
  }

  lemma YearStartMonotone(y: int, y': int)
    requires y < y'
    ensures YearStart(y + 1) <= YearStart(y')
  {
    YearStartStep(y);
    if y' > y + 1 {
      YearStartBounds(y);
      YearStartBounds(y');
    }
  }

  /** Year starts `a` and `b` computed from the bounds around estimate `q`
      bracket day number `n`. */
  lemma EstimateBrackets(n: int, q: int, a: int, b: int)
    requires 146097 * q <= 400 * n < 146097 * q + 146097
    requires 400 * a <= 146097 * (q - 1) + 589
    requires 146097 * (q + 2) - 506 <= 400 * b
    ensures a <= n < b
  {
  }

  /** The year whose days contain day number `n`: an estimate from the mean
      year length, corrected by at most one year. */
  function YearOf(n: int): (y: int)
    ensures YearStart(y) <= n < YearStart(y + 1)
  {
    var q := (n * 400) / 146097;
    var e := 1970 + q;
    YearStartBounds(e - 1);
    YearStartBounds(e + 2);
    EstimateBrackets(n, q, YearStart(e - 1), YearStart(e + 2));
    YearNear(n, e)
  }

  /** The year holding day number `n`, known to lie in year `e - 1`, `e` or
      `e + 1`. */
  function YearNear(n: int, e: int): (y: int)
    requires YearStart(e - 1) <= n < YearStart(e + 2)
    ensures YearStart(y) <= n < YearStart(y + 1)
  {
    if n < YearStart(e) then e - 1
    else if n >= YearStart(e + 1) then e + 1
    else e
  }

  /** The month of year `y` holding day-of-year `doy` (0 is January 1). */
  function MonthOf(y: int, doy: int): (m: int)
    requires 0 <= doy < DaysInYear(y)
    ensures 1 <= m <= 12
    ensures DaysBeforeMonth(y, m) <= doy < DaysBeforeMonth(y, m) + DaysInMonth(y, m)
  {
    var leap := if IsLeapYear(y) then 1 else 0;
    if doy < 31 then 1
    else if doy < 59 + leap then 2
    else if doy < 90 + leap then 3
    else if doy < 120 + leap then 4
    else if doy < 151 + leap then 5
    else if doy < 181 + leap then 6
    else if doy < 212 + leap then 7
    else if doy < 243 + leap then 8
    else if doy < 273 + leap then 9
    else if doy < 304 + leap then 10
    else if doy < 334 + leap then 11
    else 12
  }

  /** The date of day number `n` (the civil-from-days conversion). */
  function CivilFromDays(n: int): (d: Date)
    ensures ValidDate(d)
    ensures DaysFromCivil(d) == n
  {
    var y := YearOf(n);
    YearStartStep(y);
    var m := MonthOf(y, n - YearStart(y));
    Date(y, m, n - YearStart(y) - DaysBeforeMonth(y, m) + 1)
  }

  /** A valid date lies within its own year's days. */
  lemma DateWithinYear(d: Date)
    requires ValidDate(d)
    ensures YearStart(d.year) <= DaysFromCivil(d) < YearStart(d.year + 1)
  {
    YearStartStep(d.year);
    DaysBeforeMonthStep(d.year, d.month);
    if d.month < 12 {
      assert DaysBeforeMonth(d.year, d.month + 1) <= DaysBeforeMonth(d.year, 12);
    }
  }

  /** Distinct valid dates have distinct day numbers. */
  lemma DaysFromCivilInjective(a: Date, b: Date)
    requires ValidDate(a) && ValidDate(b)
    requires DaysFromCivil(a) == DaysFromCivil(b)
    ensures a == b
  {
    DateWithinYear(a);
    DateWithinYear(b);
    if a.year < b.year {
      YearStartMonotone(a.year, b.year);
    } else if b.year < a.year {
      YearStartMonotone(b.year, a.year);
    }
    assert a.year == b.year;
    MonthUnique(a.year, a.month, b.month, DaysFromCivil(a) - YearStart(a.year));
  }

  /** The months before month `b` take at least month `a` and those before it. */
  lemma {:induction false} DaysBeforeLaterMonth(y: int, a: int, b: int)
    requires 1 <= a < b <= 12
    ensures DaysBeforeMonth(y, a) + DaysInMonth(y, a) <= DaysBeforeMonth(y, b)
    decreases b - a
  {
    DaysBeforeMonthStep(y, a);
    if a + 1 < b {
      DaysBeforeLaterMonth(y, a + 1, b);
    }
  }

  /** A day of the year lies in one month only. */
  lemma MonthUnique(y: int, m: int, m': int, doy: int)
    requires 1 <= m <= 12 && 1 <= m' <= 12
    requires DaysBeforeMonth(y, m) <= doy < DaysBeforeMonth(y, m) + DaysInMonth(y, m)
    requires DaysBeforeMonth(y, m') <= doy < DaysBeforeMonth(y, m') + DaysInMonth(y, m')
    ensures m == m'
  {
    if m < m' {
      DaysBeforeLaterMonth(y, m, m');
    } else if m' < m {
      DaysBeforeLaterMonth(y, m', m);
    }
  }

  /** Days-from-civil followed by civil-from-days gives the date back. */
  lemma CivilRoundTrip(d: Date)
    requires ValidDate(d)
    ensures CivilFromDays(DaysFromCivil(d)) == d
  {
    DaysFromCivilInjective(CivilFromDays(DaysFromCivil(d)), d);
  }

  // ---- month arithmetic --------------------------------------------------

  /** A day of month, as any month may hold it. */
  type MonthDay = d: int | 1 <= d <= 31 witness 1

  /** Seconds since midnight. */
  type DayTime = s: int | 0 <= s < 86400

  /** Months since year 0, January being month 0 of each year. */
  function MonthIndex(d: Date): int {
    d.year * 12 + d.month - 1
  }

  /** Day number of the first day of the month with index `i`. */
  function MonthStartDay(i: int): int {
    DaysFromCivil(Date(i / 12, i % 12 + 1, 1))
  }

  /** Days in the month with index `i`. */
  function MonthLength(i: int): (n: int)
    ensures 28 <= n <= 31
  {
    DaysInMonth(i / 12, i % 12 + 1)
  }

  /** The start and length of month `i`, from its year `y` and month `m`. */
  lemma MonthOfIndex(i: int, y: int, m: int)
    requires y == i / 12 && m == i % 12 + 1
    ensures MonthStartDay(i) == YearStart(y) + DaysBeforeMonth(y, m)
    ensures MonthLength(i) == DaysInMonth(y, m)
  {
  }

  /** The month after a month of index `i` starts when it ends. */
  lemma MonthStartStep(i: int)
    ensures MonthStartDay(i + 1) == MonthStartDay(i) + MonthLength(i)
  {
    if i % 12 == 11 {
      DecemberStep(i, i / 12);
    } else {
      WithinYearStep(i, i / 12, i % 12 + 1);
    }
  }

  lemma DecemberStep(i: int, y: int)
    requires y == i / 12 && i % 12 == 11
    ensures MonthStartDay(i + 1) == MonthStartDay(i) + MonthLength(i)
  {
    MonthOfIndex(i, y, 12);
    DivUnique(i + 1, 12, y + 1, 0);
    MonthOfIndex(i + 1, y + 1, 1);
    DaysBeforeMonthStep(y, 12);
    YearStartStep(y);
  }

  lemma WithinYearStep(i: int, y: int, m: int)
    requires y == i / 12 && m == i % 12 + 1 && m < 12
    ensures MonthStartDay(i + 1) == MonthStartDay(i) + MonthLength(i)
  {
    MonthOfIndex(i, y, m);
    DivUnique(i + 1, 12, y, m);
    MonthOfIndex(i + 1, y, m + 1);
    DaysBeforeMonthStep(y, m);
  }

  /** A sequence whose every step is at least 28 gains at least `28 * (j - i)`
      from `i` to `j`. */
  lemma {:induction false} StepGrowth(f: int -> int, i: int, j: int)
    requires i <= j
    requires forall x :: f(x + 1) - f(x) >= 28
    ensures f(j) - f(i) >= 28 * (j - i)
    decreases j - i
  {
    if i < j {
      StepGrowth(f, i, j - 1);
      assert f(j) - f(j - 1) >= 28;
    }
  }

  /** Every month has at least 28 days, so `j - i` months span at least
      `28 * (j - i)` days. */
  lemma MonthStartGrowth(i: int, j: int)
    requires i <= j
    ensures MonthStartDay(j) - MonthStartDay(i) >= 28 * (j - i)
  {
    forall x ensures MonthStartDay(x + 1) - MonthStartDay(x) >= 28 {
      MonthStartStep(x);
    }
    StepGrowth(MonthStartDay, i, j);
  }

  /** The month index of a valid date gives back its year and month. */
  lemma MonthIndexParts(d: Date)
    requires 1 <= d.month <= 12
    ensures MonthIndex(d) / 12 == d.year && MonthIndex(d) % 12 + 1 == d.month
  {
    DivUnique(MonthIndex(d), 12, d.year, d.month - 1);
  }

  /** A valid date is the start of its month `i` plus its day of month. */
  lemma DateWithinMonth(d: Date, i: int)
    requires ValidDate(d) && i == MonthIndex(d)
    ensures MonthStartDay(i) + d.day - 1 == DaysFromCivil(d)
    ensures d.day <= MonthLength(i)
  {
    MonthIndexParts(d);
    MonthOfIndex(i, d.year, d.month);
  }

  function Min(a: int, b: int): int {
    if a <= b then a else b
  }

  /** The date `k` months after `d`: the day of month is kept, or clamped to
      the last day of the target month when that month is shorter. */
  function AddMonths(d: Date, k: nat): (r: Date)
    requires ValidDate(d)
    ensures ValidDate(r)
    ensures MonthIndex(r) == MonthIndex(d) + k
    ensures d.day <= DaysInMonth(r.year, r.month) ==> r.day == d.day
    ensures d.day > DaysInMonth(r.year, r.month) ==> r.day == DaysInMonth(r.year, r.month)
  {
    var i := MonthIndex(d) + k;
    var y, m := i / 12, i % 12 + 1;
    Date(y, m, Min(d.day, DaysInMonth(y, m)))
  }

  /** The day number of `AddMonths(d, k)`, from the start and length of its
      month `i`. */
  lemma AddMonthsDay(d: Date, k: nat, i: int)
    requires ValidDate(d) && i == MonthIndex(d) + k
    ensures DaysFromCivil(AddMonths(d, k)) == MonthStartDay(i) + Min(d.day, MonthLength(i)) - 1
  {
    var r := AddMonths(d, k);
    DateWithinMonth(r, i);
    MonthIndexParts(r);
    MonthOfIndex(i, r.year, r.month);
  }

  // ---- instants and their civil reading ---------------------------------

  // Instants are seconds since 1970-01-01 00:00; a day has 86400 of them,
  // an hour 3600.

  /** Day number of an instant. */
  function DayOf(t: int): int {
    t / 86400
  }

  /** Seconds since midnight of an instant. */
  function TimeOfDay(t: int): (s: int)
    ensures 0 <= s < 86400
  {
    t % 86400
  }

  function HourOf(t: int): int {
    TimeOfDay(t) / 3600
  }

  function MinuteOf(t: int): int {
    TimeOfDay(t) % 3600 / 60
  }

  /** The civil date of an instant. */
  function DateOf(t: int): (d: Date)
    ensures ValidDate(d) && DaysFromCivil(d) == DayOf(t)
  {
    CivilFromDays(DayOf(t))
  }

  /** An instant is its day's midnight plus its time of day. */
  lemma DayAndTime(t: int)
    ensures t == DayOf(t) * 86400 + TimeOfDay(t)
  {
  }

  /** The date and time of day of instant `t`, second `s` of date `d`. */
  lemma DayAndTimeRoundTrip(d: Date, s: int, t: int)
    requires ValidDate(d) && 0 <= s < 86400 && t == DaysFromCivil(d) * 86400 + s
    ensures DayOf(t) == DaysFromCivil(d) && TimeOfDay(t) == s
    ensures DateOf(t) == d
  {
    DivUnique(t, 86400, DaysFromCivil(d), s);
    CivilRoundTrip(d);
  }

  /** The instant written as date and time of day. */
  function InstantOf(d: Date, hour: int, minute: int, second: int): int
    requires 1 <= d.month <= 12
  {
    DaysFromCivil(d) * 86400 + hour * 3600 + minute * 60 + second
  }

  /** Reading back the date and time of day of an instant built from them. */
  lemma InstantOfRoundTrip(d: Date, hour: int, minute: int, second: int)
    requires ValidDate(d)
    requires 0 <= hour < 24 && 0 <= minute < 60 && 0 <= second < 60
    ensures DateOf(InstantOf(d, hour, minute, second)) == d
    ensures HourOf(InstantOf(d, hour, minute, second)) == hour
    ensures MinuteOf(InstantOf(d, hour, minute, second)) == minute
  {
    var s := hour * 3600 + minute * 60 + second;
    DayAndTimeRoundTrip(d, s, InstantOf(d, hour, minute, second));
    DivUnique(s, 3600, hour, minute * 60 + second);
    DivUnique(minute * 60 + second, 60, minute, second);
  }
}

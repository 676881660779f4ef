/** ISO 8601 week dates by closed formulas, against the calendar. */
module IsoWeek {

  // ----- The proleptic Gregorian calendar -----

  predicate IsLeap(y: int) {
    y % 4 == 0 && (y % 100 != 0 || y % 400 == 0)
  }

  function YearLength(y: int): int {
    if IsLeap(y) then 366 else 365
  }

  /** Days from January 1 of year 1 to January 1 of year y. */
  function DaysBefore(y: int): int {
    365 * (y - 1) + (y - 1) / 4 - (y - 1) / 100 + (y - 1) / 400
  }

  lemma NextYear(y: int)
    ensures DaysBefore(y + 1) == DaysBefore(y) + YearLength(y)
  {
    hide YearLength;
    Multiples(y, 4);
    Multiples(y, 100);
    Multiples(y, 400);
    LeapDay(y);
  }

  /** One day more for multiples of 4, one less for those of 100, and one more for those of 400. */
  lemma LeapDay(y: int)
    ensures YearLength(y)
            == 365 + (if y % 4 == 0 then 1 else 0) - (if y % 100 == 0 then 1 else 0) + (if y % 400 == 0 then 1 else 0)
  {
    Divides(y, 100, 4);
    Divides(y, 400, 100);
  }

  lemma Divides(y: int, m: int, d: int)
    requires (m == 100 && d == 4) || (m == 400 && d == 100)
    ensures y % m == 0 ==> y % d == 0
  {
    if m == 100 {
      assert y % 100 == 0 ==> y == 4 * (25 * (y / 100));
    } else {
      assert y % 400 == 0 ==> y == 100 * (4 * (y / 400));
    }
  }

  /** A quotient steps at the multiples of its divisor. */
  lemma Multiples(y: int, m: int)
    requires m == 4 || m == 100 || m == 400
    ensures y / m == (y - 1) / m + if y % m == 0 then 1 else 0
  {}

  /** The day of the week of a day number, Sunday being 0. January 1 of year 1 is a Monday. */
  function DayOfWeek(day: int): int {
    (day + 1) % 7
  }

  function Weekday(y: int, yday: int): int {
    DayOfWeek(DaysBefore(y) + yday)
  }

  /** The number of Thursdays among the first n days of a year. */
  function ThursdaysIn(y: int, n: nat): nat {
    if n == 0 then 0 else ThursdaysIn(y, n - 1) + if Weekday(y, n - 1) == 4 then 1 else 0
  }

  function Thursdays(y: int): nat {
    ThursdaysIn(y, YearLength(y))
  }

  /** Section 2.2.10 of ISO 8601:2004: the week belongs to the year of its Thursday, and is numbered by its Thursday. */
  ghost predicate IsWeekDate(day: int, year: int, week: int) {
    && DaysBefore(year) <= ThursdayOf(day) < DaysBefore(year + 1)
    && week == (ThursdayOf(day) - DaysBefore(year)) / 7 + 1
  }

  /** The Thursday of the week of a day; weeks start on Monday. */
  function ThursdayOf(day: int): int {
    day + 4 - if DayOfWeek(day) == 0 then 7 else DayOfWeek(day)
  }

  lemma ThursdayIsThursday(day: int)
    ensures DayOfWeek(ThursdayOf(day)) == 4 && day - 3 <= ThursdayOf(day) <= day + 3
  {}

  lemma {:induction false} YearsAscend(y: int, z: int)
    requires y <= z
    ensures DaysBefore(y) + 365 * (z - y) <= DaysBefore(z)
    decreases z - y
  {
    hide DaysBefore;
    if y < z {
      YearsAscend(y, z - 1);
      NextYear(z - 1);
    }
  }

  /** A day has one week date only. */
  lemma WeekDateUnique(day: int, y: int, w: int, z: int, v: int)
    requires IsWeekDate(day, y, w) && IsWeekDate(day, z, v)
    ensures y == z && w == v
  {
    hide DaysBefore, ThursdayOf;
    if y < z {
      YearsAscend(y + 1, z);
    } else if z < y {
      YearsAscend(z + 1, y);
    }
  }

  // ----- The formulas -----

  /** Division and remainder of C++, which truncate toward zero. */
  function Quot(a: int, b: int): int
    requires b > 0
  {
    if a >= 0 then a / b else -((-a) / b)
  }

  function Rem(a: int, b: int): int
    requires b > 0
  {
    if a >= 0 then a % b else -((-a) % b)
  }

  /** The day of the week of December 31, for years that are not negative. */
  function LastDayOfWeek(y: int): int {
    Rem(y + Quot(y, 4) - Quot(y, 100) + Quot(y, 400), 7)
  }

  function IsoYearWeeks(year: int): (r: int)
    ensures r == 52 || r == 53
  {
    52 + if LastDayOfWeek(year) == 4 || LastDayOfWeek(year - 1) == 3 then 1 else 0
  }

  function IsoWeekNum(yday: int, wday: int): int {
    Quot(yday + 11 - (if wday == 0 then 7 else wday), 7)
  }

  function IsoWeekYear(year: int, yday: int, wday: int): int {
    var w := IsoWeekNum(yday, wday);
    if w < 1 then year - 1 else if w > IsoYearWeeks(year) then year + 1 else year
  }

  function IsoWeekOfYear(year: int, yday: int, wday: int): int {
    var w := IsoWeekNum(yday, wday);
    if w < 1 then IsoYearWeeks(year - 1) else if w > IsoYearWeeks(year) then 1 else w
  }

  // ----- Thursdays -----

  /** The Thursdays among the first n days, given any one Thursday of that year or behind it. */
  lemma {:induction false} CountThursdays(y: int, n: nat, k: nat)
    requires Weekday(y, k) == 4
    ensures ThursdaysIn(y, n) == (n + 6 - k % 7) / 7
    decreases n
  {
    hide *;
    if n > 0 {
      CountThursdays(y, n - 1, k);
      CountOne(y, n);
      ThursdaysApart(y, n - 1, k);
      CountStep(n, k % 7);
    } else {
      CountNone(y, k % 7);
    }
  }

  lemma CountOne(y: int, n: nat)
    requires n > 0
    ensures ThursdaysIn(y, n) == ThursdaysIn(y, n - 1) + if Weekday(y, n - 1) == 4 then 1 else 0
  {}

  lemma CountNone(y: int, t: int)
    requires 0 <= t < 7
    ensures ThursdaysIn(y, 0) == (0 + 6 - t) / 7
  {}

  /** Two days of a year are both Thursdays exactly when whole weeks are between them. */
  lemma ThursdaysApart(y: int, i: int, k: int)
    requires Weekday(y, k) == 4
    ensures Weekday(y, i) == 4 <==> (i - k % 7) % 7 == 0
  {
    SameWeekday(DaysBefore(y), i, k);
    WholeWeeksApart(i, k);
    hide DaysBefore, DayOfWeek;
  }

  lemma WholeWeeksApart(i: int, k: int)
    ensures (i - k % 7) % 7 == (i - k) % 7
  {
    assert i - k % 7 == (i - k) + 7 * (k / 7);
  }

  lemma SameWeekday(b: int, i: int, k: int)
    ensures DayOfWeek(b + i) == DayOfWeek(b + k) <==> (i - k) % 7 == 0
  {}

  lemma CountStep(n: int, t: int)
    requires n > 0 && 0 <= t < 7
    ensures (n + 6 - t) / 7 == (n - 1 + 6 - t) / 7 + if (n - 1 - t) % 7 == 0 then 1 else 0
  {
    var u := n - 1 - t;
    var q, r := u / 7, u % 7;
    assert u == 7 * q + r && 0 <= r < 7;
    SevenQuotient(u + 7, q + 1, r);
    if r == 0 {
      SevenQuotient(u + 6, q, 6);
    } else {
      SevenQuotient(u + 6, q + 1, r - 1);
    }
  }

  lemma SevenQuotient(x: int, q: int, r: int)
    requires x == 7 * q + r && 0 <= r < 7
    ensures x / 7 == q
  {}

  lemma FirstThursday(y: int) returns (t: nat)
    ensures t < 7 && Weekday(y, t) == 4
  {
    var b := DaysBefore(y);
    hide DaysBefore;
    t := (3 - b) % 7;
    assert (b + t + 1) % 7 == 4;
  }

  /** 53 Thursdays: the first or the last day of the year is one. */
  lemma FiftyThree(y: int)
    ensures Thursdays(y) == if Weekday(y, 0) == 4 || Weekday(y, YearLength(y) - 1) == 4 then 53 else 52
  {
    hide DaysBefore, ThursdaysIn;
    var t := FirstThursday(y);
    var n := YearLength(y);
    CountThursdays(y, n, t);
    SameWeekday(DaysBefore(y), 0, t);
    SameWeekday(DaysBefore(y), n - 1, t);
  }

  lemma DecemberThirtyFirst(y: int)
    requires y >= 0
    ensures LastDayOfWeek(y) == DayOfWeek(DaysBefore(y + 1) - 1)
  {
    WholeWeeks(y, y + y / 4 - y / 100 + y / 400);
  }

  lemma WholeWeeks(y: int, s: int)
    ensures (364 * y + s) % 7 == s % 7
  {
    assert 364 * y + s == s + 7 * (52 * y);
  }

  lemma YearZero()
    ensures IsoYearWeeks(0) == 52 && Weekday(0, 0) == 6 && Weekday(0, 365) == 0 && YearLength(0) == 366
  {
    hide *;
    YearZeroWeeks();
    YearZeroDays();
  }

  lemma YearZeroWeeks()
    ensures IsoYearWeeks(0) == 52
  {
    LastDayOfMinusOne();
    LastDayOfZero();
    hide LastDayOfWeek;
  }

  lemma YearZeroDays()
    ensures Weekday(0, 0) == 6 && Weekday(0, 365) == 0 && YearLength(0) == 366
  {
    ZeroDays();
    hide DaysBefore, YearLength;
  }

  lemma LastDayOfZero()
    ensures LastDayOfWeek(0) == 0
  {}

  lemma LastDayOfMinusOne()
    ensures LastDayOfWeek(-1) == -1
  {
    assert Quot(-1, 4) == 0 && Quot(-1, 100) == 0 && Quot(-1, 400) == 0;
    hide Quot;
  }

  lemma ZeroDays()
    ensures DaysBefore(0) == -366 && DaysBefore(-2) == -1096 && YearLength(0) == 366 && YearLength(-2) == 365
  {}

  /** For every year that is not negative the formula counts the Thursdays. */
  lemma YearWeeks(y: int)
    requires y >= 0
    ensures IsoYearWeeks(y) == Thursdays(y)
  {
    hide DaysBefore, LastDayOfWeek, ThursdaysIn, DayOfWeek;
    FiftyThree(y);
    if y == 0 {
      YearZero();
    } else {
      NextYear(y);
      DecemberThirtyFirst(y);
      DecemberThirtyFirst(y - 1);
      NextDay(DaysBefore(y));
    }
  }

  lemma NextDay(day: int)
    ensures DayOfWeek(day - 1) == 3 <==> DayOfWeek(day) == 4
  {}

  // ----- Negative years -----

  /** Truncating division gives every negative year 52 weeks, so the formula is right exactly when the year has 52. */
  lemma NegativeYear(y: int)
    requires y < 0
    ensures IsoYearWeeks(y) == 52 && (Thursdays(y) == 52 || Thursdays(y) == 53)
    ensures IsoYearWeeks(y) == Thursdays(y) <==> Weekday(y, 0) != 4 && Weekday(y, YearLength(y) - 1) != 4
  {
    hide DaysBefore, LastDayOfWeek, ThursdaysIn, DayOfWeek;
    FiftyThree(y);
    NotPositive(-y);
    NotPositive(1 - y);
    assert -(1 - y) == y - 1 && -(-y) == y;
  }

  lemma NotPositive(n: int)
    requires n > 0
    ensures LastDayOfWeek(-n) <= 0
  {
    assert n + n / 4 - n / 100 + n / 400 >= 0;
  }

  /** Year -2 has 53 weeks, one more than the formula says. */
  lemma NegativeExample()
    ensures IsoYearWeeks(-2) == 52 && Thursdays(-2) == 53
  {
    hide ThursdaysIn, LastDayOfWeek, DaysBefore, IsLeap;
    NegativeYear(-2);
    FiftyThree(-2);
    ZeroDays();
    assert Weekday(-2, 0) == 4;
  }

  // ----- Week dates -----

  /** The position of the Thursday of the week, counted from January 1: what decides the week date. */
  function ThursdayOffset(yday: int, wday: int): int {
    yday + 4 - if wday == 0 then 7 else wday
  }

  lemma WeekNumber(yday: int, wday: int)
    requires yday >= 0 && 0 <= wday < 7
    ensures IsoWeekNum(yday, wday) == ThursdayOffset(yday, wday) / 7 + 1
    ensures IsoWeekNum(yday, wday) < 1 <==> ThursdayOffset(yday, wday) < 0
  {}

  /** The year and the week of the calendar, by the position of the Thursday. */
  function TrueYear(y: int, k: int): int {
    if k < 0 then y - 1 else if k < YearLength(y) then y else y + 1
  }

  function TrueWeek(y: int, k: int): int {
    if k < 0 then (k + YearLength(y - 1)) / 7 + 1 else if k < YearLength(y) then k / 7 + 1 else 1
  }

  /** The true week date: in the last week of the year before, in this year, or in the first week of the next one. */
  lemma TrueWeekDate(y: int, yday: int, wday: int)
    requires 0 <= yday < YearLength(y) && wday == Weekday(y, yday)
    ensures var day, k := DaysBefore(y) + yday, ThursdayOffset(yday, wday);
            && IsWeekDate(day, TrueYear(y, k), TrueWeek(y, k)) && -3 <= k <= YearLength(y) + 2
            && (k < 0 ==> Thursdays(y - 1) == TrueWeek(y, k))
            && (0 <= k < YearLength(y) ==> k / 7 + 1 <= Thursdays(y))
            && (k >= YearLength(y) ==> k / 7 + 1 > Thursdays(y))
  {
    hide DaysBefore, ThursdaysIn, DayOfWeek;
    var day, k := DaysBefore(y) + yday, ThursdayOffset(yday, wday);
    ThursdayIsThursday(day);
    assert ThursdayOf(day) == DaysBefore(y) + k && -3 <= k <= YearLength(y) + 2;
    NextYear(y);
    NextYear(y + 1);
    NextYear(y - 1);
    if k < 0 {
      var before := k + YearLength(y - 1);
      CountThursdays(y - 1, YearLength(y - 1), before);
      LastThursday(YearLength(y - 1), before);
    } else {
      CountThursdays(y, YearLength(y), k);
      BehindLast(YearLength(y), k);
    }
  }

  lemma LastThursday(n: int, k: int)
    requires n - 3 <= k < n && n > 300
    ensures (n + 6 - k % 7) / 7 == k / 7 + 1
  {}

  lemma BehindLast(n: int, k: int)
    requires k >= 0 && n > 0
    ensures k / 7 + 1 > (n + 6 - k % 7) / 7 <==> k >= n
  {}

  /**
   * The Thursday of the week is the 365th day of a negative year or a later one: of the year
   * of the date, or of the year before it. That is week 53, which the formula does not know.
   */
  predicate InUnknownWeek(y: int, yday: int, wday: int) {
    var k := ThursdayOffset(yday, wday);
    (y < 0 && 364 <= k < YearLength(y)) || (y <= 0 && k < 0 && k + YearLength(y - 1) >= 364)
  }

  /**
   * For every consistent date of every year, the two functions give the week date of the
   * calendar exactly when the day is not in week 53 of a negative year.
   */
  lemma WeekDate(y: int, yday: int, wday: int)
    requires 0 <= yday < YearLength(y) && wday == Weekday(y, yday)
    ensures IsWeekDate(DaysBefore(y) + yday, IsoWeekYear(y, yday, wday), IsoWeekOfYear(y, yday, wday))
            <==> !InUnknownWeek(y, yday, wday)
  {
    hide DaysBefore, Thursdays, IsWeekDate, IsoYearWeeks, IsoWeekNum, DayOfWeek, ThursdayOffset, YearLength, TrueYear, TrueWeek,
      InUnknownWeek;
    var day, k := DaysBefore(y) + yday, ThursdayOffset(yday, wday);
    var fy, fw := IsoWeekYear(y, yday, wday), IsoWeekOfYear(y, yday, wday);
    WeekdayRange(y, yday);
    WeekNumber(yday, wday);
    OffsetBound(yday, wday);
    TrueWeekDate(y, yday, wday);
    WeeksKnown(y);
    WeeksKnown(y - 1);
    FormulaWeek(y, k, IsoYearWeeks(y), IsoYearWeeks(y - 1), Thursdays(y), Thursdays(y - 1), fy, fw);
    UnknownIs(y, yday, wday);
    UniqueDate(day, TrueYear(y, k), TrueWeek(y, k), fy, fw);
  }

  /** The functions differ from the calendar in week 53 of negative years only. */
  lemma FormulaWeek(y: int, k: int, weeks: int, weeksBefore: int, thursdays: int, thursdaysBefore: int, fy: int, fw: int)
    requires weeks == (if y < 0 then 52 else thursdays) && weeksBefore == (if y <= 0 then 52 else thursdaysBefore)
    requires 52 <= thursdays <= 53 && 52 <= thursdaysBefore <= 53
    requires k < 0 ==> thursdaysBefore == TrueWeek(y, k)
    requires 0 <= k < YearLength(y) ==> k / 7 + 1 <= thursdays
    requires k >= YearLength(y) ==> k / 7 + 1 > thursdays
    requires fy == if k < 0 then y - 1 else if k / 7 + 1 > weeks then y + 1 else y
    requires fw == if k < 0 then weeksBefore else if k / 7 + 1 > weeks then 1 else k / 7 + 1
    ensures fy == TrueYear(y, k) && fw == TrueWeek(y, k) <==> !(TrueYear(y, k) < 0 && TrueWeek(y, k) == 53)
  {
    hide YearLength;
  }

  lemma UnknownIs(y: int, yday: int, wday: int)
    requires -3 <= ThursdayOffset(yday, wday) <= YearLength(y) + 2
    ensures var k := ThursdayOffset(yday, wday);
            InUnknownWeek(y, yday, wday) <==> TrueYear(y, k) < 0 && TrueWeek(y, k) == 53
  {
    hide IsLeap, ThursdayOffset;
  }

  lemma WeekdayRange(y: int, yday: int)
    ensures 0 <= Weekday(y, yday) < 7
  {}

  lemma WeeksKnown(y: int)
    ensures IsoYearWeeks(y) == (if y < 0 then 52 else Thursdays(y)) && 52 <= Thursdays(y) <= 53
  {
    hide IsoYearWeeks, Thursdays;
    if y < 0 {
      NegativeYear(y);
    } else {
      YearWeeks(y);
      TwoCounts(y);
    }
  }

  lemma TwoCounts(y: int)
    ensures 52 <= Thursdays(y) <= 53
  {
    hide ThursdaysIn, DaysBefore;
    FiftyThree(y);
  }

  lemma UniqueDate(day: int, ty: int, tw: int, fy: int, fw: int)
    requires IsWeekDate(day, ty, tw)
    ensures IsWeekDate(day, fy, fw) <==> fy == ty && fw == tw
  {
    hide IsWeekDate;
    if IsWeekDate(day, fy, fw) {
      WeekDateUnique(day, ty, tw, fy, fw);
    }
  }

  /** December 31 of year -2 is the Thursday of its week 53, but is placed in week 1 of year -1. */
  lemma NegativeDate()
    ensures Weekday(-2, 364) == 4 && InUnknownWeek(-2, 364, 4) && IsWeekDate(DaysBefore(-2) + 364, -2, 53)
    ensures IsoWeekYear(-2, 364, 4) == -1 && IsoWeekOfYear(-2, 364, 4) == 1
  {
    hide ThursdaysIn, LastDayOfWeek, DaysBefore, IsLeap;
    NegativeYear(-2);
    ZeroDays();
    NextYear(-2);
  }

  /** From year 1 on, every consistent date has the week date that the functions give. */
  lemma WeekDateFromYearOne(y: int, yday: int, wday: int)
    requires y >= 1 && 0 <= yday < YearLength(y) && wday == Weekday(y, yday)
    ensures IsWeekDate(DaysBefore(y) + yday, IsoWeekYear(y, yday, wday), IsoWeekOfYear(y, yday, wday))
  {
    hide IsoWeekYear, IsoWeekOfYear, DaysBefore, IsWeekDate, DayOfWeek, YearLength;
    WeekDate(y, yday, wday);
  }

  lemma OffsetBound(yday: int, wday: int)
    requires yday >= 0 && 0 <= wday < 7
    ensures ThursdayOffset(yday, wday) >= -3
  {}
}

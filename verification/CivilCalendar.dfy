/**
 The calendar as everyone knows it: the day number in closed form, counted in years that begin in March, against
 the months that the scheduler counts through.
 */
module CivilCalendar {
  import opened Calendar

  /** Years begin in March, so that the leap day is the last; 1 March of year 0 is day 60. */
  function DaysToMarch(year: int): int {
    365 * year + year / 4 - year / 100 + year / 400 + 60
  }

  /** Days from 1 March to the first of the month `m` months later. */
  function DaysFromMarch(m: int): int {
    (153 * m + 2) / 5
  }

  /** The number of a day by its year, its month from 0 for January, and its day of the month. */
  function CivilDay(year: int, month: int, day: int): int {
    if month >= 2 then DaysToMarch(year) + DaysFromMarch(month - 2) + day - 1
    else DaysToMarch(year - 1) + DaysFromMarch(month + 10) + day - 1
  }

  /** 1 of the month `n` months after January of year 0. */
  function FirstOf(n: int): int {
    CivilDay(n / 12, n % 12, 1)
  }

  lemma NextQuotient(year: int, n: int)
    requires n > 0
    ensures (year + 1) / n == year / n + if (year + 1) % n == 0 then 1 else 0
  {
    var q, r := year / n, year % n;
    assert year + 1 == n * q + (r + 1);
    if r + 1 == n {
      assert year + 1 == n * (q + 1);
      Quotient(year + 1, n, q + 1, 0);
    } else {
      Quotient(year + 1, n, q, r + 1);
    }
  }

  lemma Quotient(x: int, n: int, q: int, r: int)
    requires x == n * q + r && 0 <= r < n
    ensures x / n == q && x % n == r
  {
    var d := x / n - q;
    assert n * d == r - x % n;
    Multiple(n, d);
  }

  lemma Multiple(n: int, d: int)
    requires n > 0
    ensures d >= 1 ==> n * d >= n
    ensures d <= -1 ==> n * d <= -n
  {
  }

  lemma CenturiesAreQuarters(year: int)
    ensures year % 100 == 0 ==> year % 4 == 0
    ensures year % 400 == 0 ==> year % 100 == 0
  {
  }

  lemma MarchToMarch(year: int)
    ensures DaysToMarch(year + 1) == DaysToMarch(year) + if IsLeap(year + 1) then 366 else 365
  {
    NextQuotient(year, 4);
    NextQuotient(year, 100);
    NextQuotient(year, 400);
    CenturiesAreQuarters(year + 1);
  }

  lemma FromMarch()
    ensures DaysFromMarch(0) == 0 && DaysFromMarch(1) == 31 && DaysFromMarch(2) == 61 && DaysFromMarch(3) == 92
    ensures DaysFromMarch(4) == 122 && DaysFromMarch(5) == 153 && DaysFromMarch(6) == 184 && DaysFromMarch(7) == 214
    ensures DaysFromMarch(8) == 245 && DaysFromMarch(9) == 275 && DaysFromMarch(10) == 306 && DaysFromMarch(11) == 337
  {
  }

  /** The length of a month, read off the closed form. */
  lemma LengthInYear(year: nat, month: nat)
    requires month < 12
    ensures
      var next := if month == 11 then CivilDay(year + 1, 0, 1) else CivilDay(year, month + 1, 1);
      next == CivilDay(year, month, 1) + MonthLength(12 * year + month)
  {
    MonthAndYear(year, month);
    FromMarch();
    if month == 1 {
      MarchToMarch(year - 1);
    }
  }

  lemma MonthAndYear(year: int, month: int)
    requires 0 <= month < 12
    ensures (12 * year + month) / 12 == year && (12 * year + month) % 12 == month
  {
    Quotient(12 * year + month, 12, year, month);
  }

  lemma MonthLengths(n: nat)
    ensures FirstOf(n + 1) == FirstOf(n) + MonthLength(n)
  {
    var year, month := n / 12, n % 12;
    LengthInYear(year, month);
    if month == 11 {
      MonthAndYear(year + 1, 0);
    } else {
      MonthAndYear(year, month + 1);
    }
  }

  lemma {:induction false} StartsAddUp(first: int -> int, n: nat)
    requires first(0) == 0 && forall k: nat :: first(k + 1) == first(k) + MonthLength(k)
    ensures MonthStart(n) == first(n)
  {
    if n > 0 {
      StartsAddUp(first, n - 1);
      assert first(n - 1 + 1) == first(n - 1) + MonthLength(n - 1);
    }
  }

  lemma MonthStartIs(n: nat)
    ensures MonthStart(n) == FirstOf(n)
  {
    var first := (k: int) => FirstOf(k);
    forall k: nat ensures first(k + 1) == first(k) + MonthLength(k) {
      MonthLengths(k);
    }
    StartsAddUp(first, n);
  }

  /** A day of a month that begins before the next one does. */
  ghost predicate IsDate(year: int, month: int, day: int) {
    0 <= year && 0 <= month < 12 && 1 <= day && CivilDay(year, month, day) < FirstOf(12 * year + month + 1)
  }

  lemma CivilShift(year: int, month: int, day: int)
    ensures CivilDay(year, month, day) == CivilDay(year, month, 1) + day - 1
  {
  }

  lemma FirstOfIs(year: nat, month: nat)
    requires month < 12
    ensures FirstOf(12 * year + month) == CivilDay(year, month, 1)
  {
    MonthAndYear(year, month);
  }

  lemma FirstsAre(year: nat, month: nat)
    requires month < 12
    ensures MonthStart(12 * year + month) == CivilDay(year, month, 1)
    ensures FirstOf(12 * year + month + 1) == CivilDay(year, month, 1) + MonthLength(12 * year + month)
  {
    FirstOfIs(year, month);
    MonthStartIs(12 * year + month);
    MonthLengths(12 * year + month);
  }

  /** The dates of the scheduler's calendar are those of the civil one, and carry their numbers. */
  lemma DayOfIsCivil(year: nat, month: nat, day: nat)
    requires month < 12
    ensures
      var f := Fields(12 * year + month, day);
      && (f.Valid() <==> IsDate(year, month, day))
      && (f.Valid() ==> DayOf(f) == CivilDay(year, month, day))
  {
    FirstsAre(year, month);
    CivilShift(year, month, day);
  }

  lemma YearAndMonth(n: nat)
    ensures 12 * (n / 12) + n % 12 == n
  {
  }

  /** Every day has a date. */
  lemma DateOfDay(day: Day) returns (year: nat, month: nat, d: nat)
    ensures IsDate(year, month, d) && CivilDay(year, month, d) == day
  {
    var f := FieldsOf(day);
    year, month, d := f.months / 12, f.months % 12, f.day;
    YearAndMonth(f.months);
    assert f == Fields(12 * year + month, d);
    DayOfIsCivil(year, month, d);
  }

  lemma MonthsOnward(n: nat, years: nat)
    ensures (n + 12 * years) / 12 == n / 12 + years && (n + 12 * years) % 12 == n % 12
  {
    Quotient(n + 12 * years, 12, n / 12 + years, n % 12);
  }

  lemma YearsOnward(year: int, n: int, k: int)
    requires n > 0
    ensures (year + n * k) / n == year / n + k
  {
    Quotient(year + n * k, n, year / n + k, year % n);
  }

  lemma FourCenturies(year: int)
    ensures DaysToMarch(year + 400) == DaysToMarch(year) + 146097
  {
    YearsOnward(year, 4, 100);
    YearsOnward(year, 100, 4);
    YearsOnward(year, 400, 1);
  }

  /** Four hundred years have 146097 days. */
  lemma FourHundredYears(n: nat)
    ensures MonthStart(n + 4800) == MonthStart(n) + 146097
  {
    MonthStartIs(n + 4800);
    MonthStartIs(n);
    MonthsOnward(n, 400);
    FourCenturies(n / 12);
    FourCenturies(n / 12 - 1);
  }

  /** The epoch, 1 January 1970, is day 719528. */
  lemma EpochDay(n: nat)
    requires n == 12 * 1970
    ensures MonthStart(n) == 719528
  {
    MonthStartIs(n);
    MonthAndYear(1970, 0);
    CivilEpoch();
  }

  lemma CivilEpoch()
    ensures CivilDay(1970, 0, 1) == 719528
  {
  }

  // ---------------------------------------------------------------- adding months

  /** The days of a month. */
  ghost function DatesOf(year: int, month: int): int -> bool {
    (day: int) => IsDate(year, month, day)
  }

  /** `last` is the day, or the last there is where the month is shorter. */
  ghost predicate IsClamped(dates: int -> bool, day: int, last: int) {
    dates(last) && last <= day && (last < day ==> !dates(last + 1))
  }

  lemma MinClamps(dates: int -> bool, day: nat, length: nat)
    requires 1 <= day && 1 <= length && forall d: nat :: dates(d) <==> 1 <= d <= length
    ensures IsClamped(dates, day, Min(day, length))
  {
  }

  lemma DatesAre(year: nat, month: nat)
    requires month < 12
    ensures forall d: nat :: DatesOf(year, month)(d) <==> 1 <= d <= MonthLength(12 * year + month)
  {
    forall d: nat ensures DatesOf(year, month)(d) <==> 1 <= d <= MonthLength(12 * year + month) {
      DayOfIsCivil(year, month, d);
    }
  }

  lemma ClampedIs(year: nat, month: nat, day: nat, last: nat)
    requires month < 12 && day >= 1 && last == Min(day, MonthLength(12 * year + month))
    ensures IsClamped(DatesOf(year, month), day, last)
    ensures DayOf(Fields(12 * year + month, last)) == CivilDay(year, month, last)
  {
    DatesAre(year, month);
    MinClamps(DatesOf(year, month), day, MonthLength(12 * year + month));
    DayOfIsCivil(year, month, last);
  }

  lemma AddsFields(f: Fields, months: nat, target: nat)
    requires f.Valid() && target == f.months + months + if f.Year() <= 99 then 12 * 1900 else 0
    ensures AddCalendarMonthsClamped(DayOf(f), months) == DayOf(Fields(target, Min(f.day, MonthLength(target))))
  {
    FieldsOfDayOf(f);
    AddedFields(DayOf(f), months);
  }

  lemma AddsTo(year: nat, month: nat, day: nat, months: nat, inYear: nat, inMonth: nat) returns (last: nat)
    requires month < 12 && Fields(12 * year + month, day).Valid() && inMonth < 12
    requires 12 * inYear + inMonth == 12 * year + month + months + if year <= 99 then 12 * 1900 else 0
    ensures IsClamped(DatesOf(inYear, inMonth), day, last)
    ensures AddCalendarMonthsClamped(DayOf(Fields(12 * year + month, day)), months) == CivilDay(inYear, inMonth, last)
  {
    var f, target := Fields(12 * year + month, day), 12 * inYear + inMonth;
    MonthAndYear(year, month);
    AddsFields(f, months, target);
    last := Min(day, MonthLength(target));
    ClampedIs(inYear, inMonth, day, last);
  }

  /**
   Adding months to a date lands in the month that many further on, on the same day or the month's last; a year
   below 100 is taken for one of the twentieth century.
   */
  lemma AddsCivilMonths(year: nat, month: nat, day: nat, months: nat) returns (last: nat)
    requires IsDate(year, month, day)
    ensures
      var n := 12 * (if year < 100 then 1900 + year else year) + month + months;
      && IsClamped(DatesOf(n / 12, n % 12), day, last)
      && CivilDay(year, month, day) >= 0
      && AddCalendarMonthsClamped(CivilDay(year, month, day), months) == CivilDay(n / 12, n % 12, last)
  {
    var n := 12 * (if year < 100 then 1900 + year else year) + month + months;
    DayOfIsCivil(year, month, day);
    last := AddsTo(year, month, day, months, n / 12, n % 12);
  }
}

/**
 UTC calendar dates as the scheduler uses them. A `Date` object holding a date is the number of its
 day; its year, month and day fields are read back from that number. Months are counted through, so
 that month `12 * year + month` needs no carry. Day 0 is 1 January of year 0.
 */
module Calendar {

  type Day = nat

  /** A date by its fields: the months counted through, and the day of the month. */
  datatype Fields = Fields(months: nat, day: nat) {
    function Year(): nat {
      months / 12
    }

    function Month(): nat {
      months % 12
    }

    predicate Valid() {
      1 <= day <= MonthLength(months)
    }

    /** The order in which dates are written down. */
    predicate Before(other: Fields) {
      || Year() < other.Year()
      || (Year() == other.Year() && Month() < other.Month())
      || (Year() == other.Year() && Month() == other.Month() && day < other.day)
    }
  }

  predicate IsLeap(year: int) {
    year % 4 == 0 && (year % 100 != 0 || year % 400 == 0)
  }

  function MonthLength(months: int): (days: nat)
    ensures 28 <= days <= 31
  {
    var month := months % 12;
    if month == 1 then (if IsLeap(months / 12) then 29 else 28)
    else if month == 3 || month == 5 || month == 8 || month == 10 then 30
    else 31
  }

  /** The number of the first day of a month. */
  function MonthStart(months: nat): nat {
    if months == 0 then 0 else MonthStart(months - 1) + MonthLength(months - 1)
  }

  lemma {:induction false} MonthStartsIncrease(a: nat, b: nat)
    requires a < b
    ensures MonthStart(a) + MonthLength(a) <= MonthStart(b)
  {
    if a + 1 < b {
      MonthStartsIncrease(a, b - 1);
    }
  }

  /** `Date.UTC`: months and days carry over, and a year below 100 means a year of the last century. */
  function UtcDay(year: nat, month: nat, day: nat): int {
    var fullYear := if year <= 99 then 1900 + year else year;
    MonthStart(12 * fullYear + month) + day - 1
  }

  // ---------------------------------------------------------------- reading the fields back

  /** A day's month is searched upwards from a month that starts no later. */
  function FieldsFrom(day: Day, months: nat): (f: Fields)
    requires MonthStart(months) <= day
    ensures f.Valid() && DayOf(f) == day
    decreases day - MonthStart(months)
  {
    if day < MonthStart(months) + MonthLength(months) then Fields(months, day - MonthStart(months) + 1)
    else
      assert MonthStart(months + 1) == MonthStart(months) + MonthLength(months);
      FieldsFrom(day, months + 1)
  }

  /** `getUTCFullYear`, `getUTCMonth` and `getUTCDate`. */
  function FieldsOf(day: Day): (f: Fields)
    ensures f.Valid() && DayOf(f) == day
  {
    FieldsFrom(day, 0)
  }

  function DayOf(f: Fields): Day
    requires f.Valid()
  {
    MonthStart(f.months) + f.day - 1
  }

  lemma MonthOfDay(a: nat, i: nat, b: nat, j: nat)
    requires 1 <= i <= MonthLength(a) && 1 <= j <= MonthLength(b)
    ensures MonthStart(a) + i - 1 < MonthStart(b) + j - 1 <==> a < b || (a == b && i < j)
  {
    if a < b {
      MonthStartsIncrease(a, b);
    } else if b < a {
      MonthStartsIncrease(b, a);
    }
  }

  /** Day numbers and written dates are ordered alike. */
  lemma OrdersAgree(a: Fields, b: Fields)
    requires a.Valid() && b.Valid()
    ensures DayOf(a) < DayOf(b) <==> a.Before(b)
  {
    MonthOfDay(a.months, a.day, b.months, b.day);
  }

  /** Every valid date is the date of its own day. */
  lemma FieldsOfDayOf(f: Fields)
    requires f.Valid()
    ensures FieldsOf(DayOf(f)) == f
  {
    var g := FieldsOf(DayOf(f));
    MonthOfDay(f.months, f.day, g.months, g.day);
    MonthOfDay(g.months, g.day, f.months, f.day);
  }

  lemma FieldsOfThe(day: Day, f: Fields)
    requires f.Valid() && DayOf(f) == day
    ensures FieldsOf(day) == f
  {
    FieldsOfDayOf(f);
  }

  lemma SameDayIffSameFields(p: Fields, q: Fields)
    requires p.Valid() && q.Valid()
    ensures DayOf(p) == DayOf(q) <==> p == q
  {
    if DayOf(p) == DayOf(q) {
      FieldsOfThe(DayOf(q), p);
      FieldsOfThe(DayOf(q), q);
    }
  }

  // ---------------------------------------------------------------- adding months

  function Min(a: nat, b: nat): nat {
    if a <= b then a else b
  }

  function AddCalendarMonthsClamped(from: Day, months: nat): Day {
    AddToFields(FieldsOf(from), months)
  }

  function AddToFields(f: Fields, months: nat): Day {
    var targetMonthIndex := f.Month() + months;
    MonthHasStart(f.Year(), targetMonthIndex);
    var lastDayOfTargetMonth := FieldsOf(UtcDay(f.Year(), targetMonthIndex + 1, 0)).day;
    var clampedDay := Min(f.day, lastDayOfTargetMonth);
    UtcDay(f.Year(), targetMonthIndex, clampedDay)
  }

  lemma MonthHasStart(year: nat, index: nat)
    ensures UtcDay(year, index + 1, 0) >= 0
    ensures UtcDay(year, index, 1) >= 0
  {
    var fullYear := if year <= 99 then 1900 + year else year;
    assert MonthStart(12 * fullYear + index + 1)
           == MonthStart(12 * fullYear + index) + MonthLength(12 * fullYear + index);
  }

  /** The month a date lands in: `Date.UTC` reads the years 0 to 99 as 1900 to 1999. */
  function TargetMonth(f: Fields, months: nat): nat {
    f.months + months + if f.Year() <= 99 then 12 * 1900 else 0
  }

  lemma UtcDayInMonth(f: Fields, months: nat, day: nat)
    ensures UtcDay(f.Year(), f.Month() + months, day) == MonthStart(TargetMonth(f, months)) + day - 1
  {
    var year, month := f.Year(), f.Month();
    assert f.months == 12 * year + month;
    assert year <= 99 ==> 12 * (1900 + year) + (month + months) == TargetMonth(f, months);
    assert year > 99 ==> 12 * year + (month + months) == TargetMonth(f, months);
  }

  /** Day 0 of the following month is the last day of the month. */
  lemma DayZero(target: nat)
    ensures MonthStart(target + 1) >= 1
    ensures FieldsOf(MonthStart(target + 1) - 1) == Fields(target, MonthLength(target))
  {
    FieldsOfThe(MonthStart(target + 1) - 1, Fields(target, MonthLength(target)));
  }

  /** The fields of the sum: the target month, and the same day where that month has it. */
  function Clamped(f: Fields, months: nat): (g: Fields)
    requires f.Valid()
    ensures g.Valid()
  {
    var target := TargetMonth(f, months);
    Fields(target, Min(f.day, MonthLength(target)))
  }

  lemma LastDayOfTarget(f: Fields, months: nat)
    ensures UtcDay(f.Year(), f.Month() + months + 1, 0) >= 0
    ensures FieldsOf(UtcDay(f.Year(), f.Month() + months + 1, 0)).day == MonthLength(TargetMonth(f, months))
  {
    UtcDayInMonth(f, months + 1, 0);
    assert TargetMonth(f, months + 1) == TargetMonth(f, months) + 1;
    DayZero(TargetMonth(f, months));
  }

  lemma AddedToFields(f: Fields, months: nat)
    requires f.Valid()
    ensures AddToFields(f, months) == DayOf(Clamped(f, months))
  {
    LastDayOfTarget(f, months);
    UtcDayInMonth(f, months, Min(f.day, MonthLength(TargetMonth(f, months))));
  }

  lemma AddedFields(from: Day, months: nat)
    ensures FieldsOf(AddCalendarMonthsClamped(from, months)) == Clamped(FieldsOf(from), months)
    ensures AddCalendarMonthsClamped(from, months) == DayOf(Clamped(FieldsOf(from), months))
  {
    AddedToFields(FieldsOf(from), months);
    FieldsOfDayOf(Clamped(FieldsOf(from), months));
  }

  /** Calendar months are added exactly when the year is at least 100. */
  lemma AddsMonthsIff(from: Day, months: nat)
    ensures FieldsOf(AddCalendarMonthsClamped(from, months)).months == FieldsOf(from).months + months
            <==> FieldsOf(from).Year() >= 100
  {
    AddedFields(from, months);
  }

  lemma AddIncreases(from: Day, a: nat, b: nat)
    requires a < b
    ensures AddCalendarMonthsClamped(from, a) < AddCalendarMonthsClamped(from, b)
  {
    AddedFields(from, a);
    AddedFields(from, b);
    var p, q := Clamped(FieldsOf(from), a), Clamped(FieldsOf(from), b);
    MonthOfDay(p.months, p.day, q.months, q.day);
  }

  /** Any positive number of months moves a date forward. */
  lemma AddMovesForward(from: Day, months: nat)
    requires months > 0
    ensures AddCalendarMonthsClamped(from, months) > from
  {
    AddedFields(from, months);
    var f := FieldsOf(from);
    var g := Clamped(f, months);
    MonthOfDay(f.months, f.day, g.months, g.day);
  }

  lemma ClampedModern(f: Fields, months: nat)
    requires f.Valid() && f.Year() >= 100
    ensures Clamped(f, months) == Fields(f.months + months, Min(f.day, MonthLength(f.months + months)))
    ensures Clamped(f, months).Year() >= 100
  {}

  lemma MinTwice(day: nat, mid: nat, last: nat)
    ensures Min(Min(day, mid), last) == Min(day, last) <==> Min(day, last) <= mid
  {}

  lemma ClampedTwice(f: Fields, a: nat, b: nat)
    requires f.Valid() && f.Year() >= 100
    ensures Clamped(Clamped(f, a), b) == Clamped(f, a + b)
            <==> Min(f.day, MonthLength(f.months + a + b)) <= MonthLength(f.months + a)
  {
    ClampedModern(f, a);
    ClampedModern(f, a + b);
    ClampedModern(Clamped(f, a), b);
    MinTwice(f.day, MonthLength(f.months + a), MonthLength(f.months + a + b));
  }

  lemma AddTwice(from: Day, a: nat, b: nat)
    ensures AddCalendarMonthsClamped(AddCalendarMonthsClamped(from, a), b)
            == DayOf(Clamped(Clamped(FieldsOf(from), a), b))
  {
    AddedFields(from, a);
    AddedFields(AddCalendarMonthsClamped(from, a), b);
  }

  /**
   Adding in two steps is adding at once exactly when the month in between is long enough: stepping
   from an already clamped date is what loses the end of the month.
   */
  lemma AddComposesIff(from: Day, a: nat, b: nat)
    requires FieldsOf(from).Year() >= 100
    ensures
      var f := FieldsOf(from);
      AddCalendarMonthsClamped(AddCalendarMonthsClamped(from, a), b) == AddCalendarMonthsClamped(from, a + b)
      <==> Min(f.day, MonthLength(f.months + a + b)) <= MonthLength(f.months + a)
  {
    var f := FieldsOf(from);
    AddTwice(from, a, b);
    AddedFields(from, a + b);
    SameDayIffSameFields(Clamped(Clamped(f, a), b), Clamped(f, a + b));
    ClampedTwice(f, a, b);
  }
}

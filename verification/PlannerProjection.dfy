/**
 The planner's projection of a schedule rule over a window of dates, and the date-only text that bounds
 the window.
 */
module PlannerProjection {
  import opened Wrappers
  import opened Texts
  import opened AscendingLists
  import opened Decimals
  import opened Calendar
  import opened CivilCalendar

  const MAX_PROJECTED_VISITS_PER_RULE: nat := 256

  /** The visit `step` intervals after the anchor, counted from the anchor itself. */
  function Occurrence(anchor: Day, interval: nat, step: nat): Day {
    if step == 0 then anchor else AddCalendarMonthsClamped(anchor, step * interval)
  }

  lemma OccurrencesIncrease(anchor: Day, interval: nat, a: nat, b: nat)
    requires interval >= 1 && a < b
    ensures Occurrence(anchor, interval, a) < Occurrence(anchor, interval, b)
  {
    assert a * interval < b * interval by {
      assert b * interval == a * interval + (b - a) * interval;
    }
    if a == 0 {
      AddMovesForward(anchor, b * interval);
    } else {
      AddIncreases(anchor, a * interval, b * interval);
    }
  }

  lemma AddedKeepsDay(anchor: Day, months: nat)
    requires FieldsOf(anchor).Year() >= 100
    ensures
      var f := FieldsOf(anchor);
      var g := FieldsOf(AddCalendarMonthsClamped(anchor, months));
      g.months == f.months + months && g.day == Min(f.day, MonthLength(g.months))
  {
    AddedFields(anchor, months);
  }

  lemma AnchorKeepsDay(anchor: Day)
    ensures var f := FieldsOf(anchor); f.day == Min(f.day, MonthLength(f.months))
  {
  }

  /** The month end never drifts: each visit falls on the anchor's day, or on the month's last. */
  lemma OccurrenceKeepsDay(anchor: Day, interval: nat, step: nat)
    requires FieldsOf(anchor).Year() >= 100
    ensures
      var f := FieldsOf(anchor);
      var g := FieldsOf(Occurrence(anchor, interval, step));
      g.months == f.months + step * interval && g.day == Min(f.day, MonthLength(g.months))
  {
    if step == 0 {
      AnchorKeepsDay(anchor);
      assert step * interval == 0;
    } else {
      AddedKeepsDay(anchor, step * interval);
    }
  }

  predicate Within(day: Day, from: Day, to: Day) {
    from <= day <= to
  }

  /** `day` is one of the first `steps` visits and lies in the window. */
  predicate IsVisit(anchor: Day, interval: nat, from: Day, to: Day, steps: nat, day: Day) {
    Within(day, from, to) && exists k: nat :: k < steps && day == Occurrence(anchor, interval, k)
  }

  function ByDay(): Day -> int {
    (day: Day) => day
  }

  lemma NoVisitAfter(anchor: Day, interval: nat, from: Day, to: Day, step: nat, steps: nat, day: Day)
    requires interval >= 1 && step <= steps
    requires Occurrence(anchor, interval, step) > to
    ensures IsVisit(anchor, interval, from, to, steps, day) <==> IsVisit(anchor, interval, from, to, step, day)
  {
    if IsVisit(anchor, interval, from, to, steps, day) {
      var k: nat :| k < steps && day == Occurrence(anchor, interval, k);
      if k > step {
        OccurrencesIncrease(anchor, interval, step, k);
      }
    }
  }

  lemma NextVisit(anchor: Day, interval: nat, from: Day, to: Day, step: nat, day: Day)
    ensures IsVisit(anchor, interval, from, to, step + 1, day) <==>
      || IsVisit(anchor, interval, from, to, step, day)
      || (day == Occurrence(anchor, interval, step) && Within(day, from, to))
  {}

  lemma EarlierVisit(anchor: Day, interval: nat, from: Day, to: Day, step: nat, day: Day)
    requires interval >= 1
    requires IsVisit(anchor, interval, from, to, step, day)
    ensures day < Occurrence(anchor, interval, step)
  {
    var k: nat :| k < step && day == Occurrence(anchor, interval, k);
    OccurrencesIncrease(anchor, interval, k, step);
  }

  /** The window's visits among the first `steps`, in order: the list the projection builds. */
  ghost predicate Projects(anchor: Day, interval: nat, from: Day, to: Day, steps: nat, dates: seq<Day>) {
    && AscendingBy(dates, ByDay())
    && forall day :: day in dates <==> IsVisit(anchor, interval, from, to, steps, day)
  }

  lemma ProjectsNext(anchor: Day, interval: nat, from: Day, to: Day, step: nat, dates: seq<Day>)
    requires interval >= 1 && Projects(anchor, interval, from, to, step, dates)
    ensures
      var occurrence := Occurrence(anchor, interval, step);
      Projects(anchor, interval, from, to, step + 1,
               if Within(occurrence, from, to) then dates + [occurrence] else dates)
  {
    var occurrence := Occurrence(anchor, interval, step);
    forall day ensures IsVisit(anchor, interval, from, to, step + 1, day) <==>
      IsVisit(anchor, interval, from, to, step, day) || (day == occurrence && Within(day, from, to))
    {
      NextVisit(anchor, interval, from, to, step, day);
    }
    forall i | 0 <= i < |dates| ensures dates[i] < occurrence {
      EarlierVisit(anchor, interval, from, to, step, dates[i]);
    }
  }

  lemma ProjectsPastEnd(anchor: Day, interval: nat, from: Day, to: Day, step: nat, steps: nat, dates: seq<Day>)
    requires interval >= 1 && step <= steps
    requires Occurrence(anchor, interval, step) > to
    requires Projects(anchor, interval, from, to, step, dates)
    ensures Projects(anchor, interval, from, to, steps, dates)
  {
    forall day
      ensures IsVisit(anchor, interval, from, to, steps, day) <==> IsVisit(anchor, interval, from, to, step, day)
    {
      NoVisitAfter(anchor, interval, from, to, step, steps, day);
    }
  }

  /** Every visit in the window among the first 256, ascending; an interval below 1 does not recur. */
  method ProjectVisitDates(nextDueOn: Day, intervalMonths: int, from: Day, to: Day) returns (dates: seq<Day>)
    ensures intervalMonths < 1 ==> dates == if Within(nextDueOn, from, to) then [nextDueOn] else []
    ensures intervalMonths >= 1 ==>
      Projects(nextDueOn, intervalMonths, from, to, 256, dates)
  {
    if intervalMonths < 1 {
      return if Within(nextDueOn, from, to) then [nextDueOn] else [];
    }
    if to < from {
      return [];
    }
    dates := [];
    var step := 0;
    while step < MAX_PROJECTED_VISITS_PER_RULE
      invariant step <= MAX_PROJECTED_VISITS_PER_RULE
      invariant Projects(nextDueOn, intervalMonths, from, to, step, dates)
    {
      var occurrence := if step == 0 then nextDueOn else AddCalendarMonthsClamped(nextDueOn, step * intervalMonths);
      if occurrence > to {
        ProjectsPastEnd(nextDueOn, intervalMonths, from, to, step, MAX_PROJECTED_VISITS_PER_RULE, dates);
        break;
      }
      ProjectsNext(nextDueOn, intervalMonths, from, to, step, dates);
      if occurrence >= from {
        dates := dates + [occurrence];
      }
      step := step + 1;
    }
  }

  /** The contract leaves one list only. */
  lemma ProjectionUnique(anchor: Day, interval: nat, from: Day, to: Day, steps: nat, a: seq<Day>, b: seq<Day>)
    requires Projects(anchor, interval, from, to, steps, a) && Projects(anchor, interval, from, to, steps, b)
    ensures a == b
  {
    forall day ensures day in a <==> day in b {
      assert day in a <==> IsVisit(anchor, interval, from, to, steps, day);
    }
    AscendingUnique(a, b, ByDay());
  }

  /**
   The ceiling counts steps from the anchor, not visits in the window. A window that opens by step 256
   is drawn in full exactly when it closes before that step; a window that opens later is drawn empty.
   */
  lemma CeilingIff(anchor: Day, interval: nat, from: Day, to: Day, dates: seq<Day>)
    requires interval >= 1
    requires Projects(anchor, interval, from, to, 256, dates)
    ensures
      var limit := Occurrence(anchor, interval, 256);
      && (from <= limit ==>
            ((forall k: nat ::
                Within(Occurrence(anchor, interval, k), from, to) ==> Occurrence(anchor, interval, k) in dates)
             <==> limit > to))
      && (from > limit ==> dates == [])
  {
    var limit := Occurrence(anchor, interval, MAX_PROJECTED_VISITS_PER_RULE);
    if from <= limit && limit <= to {
      if limit in dates {
        EarlierVisit(anchor, interval, from, to, MAX_PROJECTED_VISITS_PER_RULE, limit);
      }
      assert limit !in dates;
    }
    if limit > to {
      forall k: nat | Within(Occurrence(anchor, interval, k), from, to)
        ensures Occurrence(anchor, interval, k) in dates
      {
        if k > MAX_PROJECTED_VISITS_PER_RULE {
          OccurrencesIncrease(anchor, interval, MAX_PROJECTED_VISITS_PER_RULE, k);
        }
        assert IsVisit(anchor, interval, from, to, MAX_PROJECTED_VISITS_PER_RULE, Occurrence(anchor, interval, k));
      }
    }
    if from > limit && dates != [] {
      assert dates[0] in dates;
      EarlierVisit(anchor, interval, from, to, MAX_PROJECTED_VISITS_PER_RULE, dates[0]);
    }
  }

  lemma LoneVisitDrawn(anchor: Day, interval: nat, k: nat, v: Day, dates: seq<Day>)
    requires k < MAX_PROJECTED_VISITS_PER_RULE && v == Occurrence(anchor, interval, k)
    requires Projects(anchor, interval, v, v, MAX_PROJECTED_VISITS_PER_RULE, dates)
    ensures dates == [v]
  {
    forall day ensures day in dates <==> day in [v] {
      assert day in dates <==> IsVisit(anchor, interval, v, v, MAX_PROJECTED_VISITS_PER_RULE, day);
    }
    AscendingUnique(dates, [v], ByDay());
  }

  /** A window around one visit alone shows it exactly when fewer than 256 visits precede it. */
  lemma LoneVisitDrawnIff(anchor: Day, interval: nat, k: nat, dates: seq<Day>)
    requires interval >= 1
    requires
      var v := Occurrence(anchor, interval, k);
      Projects(anchor, interval, v, v, 256, dates)
    ensures dates == if k < 256 then [Occurrence(anchor, interval, k)] else []
  {
    if k < MAX_PROJECTED_VISITS_PER_RULE {
      LoneVisitDrawn(anchor, interval, k, Occurrence(anchor, interval, k), dates);
    } else if dates != [] {
      assert dates[0] in dates;
      NotAmongTheFirst(anchor, interval, k, dates[0]);
    }
  }

  lemma NotAmongTheFirst(anchor: Day, interval: nat, k: nat, day: Day)
    requires interval >= 1 && k >= MAX_PROJECTED_VISITS_PER_RULE
    ensures var v := Occurrence(anchor, interval, k);
            !IsVisit(anchor, interval, v, v, MAX_PROJECTED_VISITS_PER_RULE, day)
  {
    var v := Occurrence(anchor, interval, k);
    if IsVisit(anchor, interval, v, v, MAX_PROJECTED_VISITS_PER_RULE, day) {
      EarlierVisit(anchor, interval, v, v, MAX_PROJECTED_VISITS_PER_RULE, day);
      if k > MAX_PROJECTED_VISITS_PER_RULE {
        OccurrencesIncrease(anchor, interval, MAX_PROJECTED_VISITS_PER_RULE, k);
      }
    }
  }

  // ---------------------------------------------------------------- date-only text

  function Digit(n: nat): CodeUnit {
    ZERO + n % 10
  }

  function TwoDigits(n: nat): (t: Text)
    ensures |t| == 2
  {
    [Digit(n / 10), Digit(n)]
  }

  function FourDigits(n: nat): (t: Text)
    ensures |t| == 4
  {
    TwoDigits(n / 100) + TwoDigits(n % 100)
  }

  /** `toISOString().slice(0, 10)`: years above 9999 are written with a sign and six digits. */
  function ToIsoDateOnly(day: Day): (t: Text)
    ensures |t| == 10
  {
    IsoText(FieldsOf(day))
  }

  function IsoText(f: Fields): (t: Text)
    ensures |t| == 10
  {
    if f.Year() <= 9999 then
      FourDigits(f.Year()) + [MINUS] + TwoDigits(f.Month() + 1) + [MINUS] + TwoDigits(f.day)
    else
      [PLUS, Digit(f.Year() / 100000), Digit(f.Year() / 10000)] + FourDigits(f.Year()) + [MINUS]
      + TwoDigits(f.Month() + 1)
  }

  /** `/^\d{4}-\d{2}-\d{2}$/`. */
  predicate DateShaped(t: Text) {
    && |t| == 10
    && AllDigits(t[0..4]) && t[4] == MINUS && AllDigits(t[5..7]) && t[7] == MINUS && AllDigits(t[8..10])
  }

  /** `new Date(value + 'T00:00:00.000Z')`: a day up to 31 carries into the next month, others fail. */
  function ParseInstant(t: Text): Option<Day>
    requires DateShaped(t)
  {
    var year, month, day := Nat(t[0..4]), Nat(t[5..7]), Nat(t[8..10]);
    if 1 <= month <= 12 && 1 <= day <= 31 then Some(MonthStart(12 * year + month - 1) + day - 1) else None
  }

  function ParseIsoDateOnly(value: Option<Text>): Option<Day> {
    if value.None? || !DateShaped(value.value) then None
    else
      match ParseInstant(value.value)
      case None => None
      case Some(day) => if ToIsoDateOnly(day) != value.value then None else Some(day)
  }

  lemma TwoDigitsValue(n: nat)
    requires n < 100
    ensures AllDigits(TwoDigits(n)) && Nat(TwoDigits(n)) == n
  {
    var t := TwoDigits(n);
    assert t[..1] == [Digit(n / 10)] && [Digit(n / 10)][..0] == [];
    assert Nat(t[..1]) == n / 10;
  }

  lemma FourDigitsValue(n: nat)
    requires n < 10000
    ensures AllDigits(FourDigits(n)) && Nat(FourDigits(n)) == n
  {
    TwoDigitsValue(n / 100);
    TwoDigitsValue(n % 100);
    NatConcat(TwoDigits(n / 100), TwoDigits(n % 100));
    assert Pow10(2) == 10 * Pow10(1) == 100 * Pow10(0);
  }

  /** `YYYY-MM-DD` put together and taken apart. */
  lemma DateParts(year: nat, month: nat, day: nat)
    requires year < 10000 && month < 100 && day < 100
    ensures
      var t := FourDigits(year) + [MINUS] + TwoDigits(month) + [MINUS] + TwoDigits(day);
      && |t| == 10 && t[4] == MINUS && t[7] == MINUS
      && t[0..4] == FourDigits(year) && t[5..7] == TwoDigits(month) && t[8..10] == TwoDigits(day)
  {
  }

  lemma InstantOfParts(t: Text, f: Fields)
    requires f.Valid() && f.Year() < 10000
    requires |t| == 10 && t[4] == MINUS && t[7] == MINUS
    requires t[0..4] == FourDigits(f.Year()) && t[5..7] == TwoDigits(f.Month() + 1) && t[8..10] == TwoDigits(f.day)
    ensures DateShaped(t) && ParseInstant(t) == Some(DayOf(f))
  {
    FourDigitsValue(f.Year());
    TwoDigitsValue(f.Month() + 1);
    TwoDigitsValue(f.day);
    FieldsApart(f);
  }

  lemma IsoTextReadsBack(f: Fields)
    requires f.Valid() && f.Year() <= 9999
    ensures DateShaped(IsoText(f)) && ParseInstant(IsoText(f)) == Some(DayOf(f))
  {
    DateParts(f.Year(), f.Month() + 1, f.day);
    InstantOfParts(IsoText(f), f);
  }

  /** Reading back a written date. */
  lemma IsoReadsBack(day: Day)
    requires FieldsOf(day).Year() <= 9999
    ensures DateShaped(ToIsoDateOnly(day)) && ParseInstant(ToIsoDateOnly(day)) == Some(day)
  {
    IsoTextReadsBack(FieldsOf(day));
  }

  lemma FieldsApart(f: Fields)
    ensures 12 * f.Year() + f.Month() == f.months
  {}

  /** A text is accepted exactly when it is how the day it names is written, up to the year 9999. */
  lemma ParseIffWritten(t: Text, day: Day)
    ensures ParseIsoDateOnly(Some(t)) == Some(day) <==> FieldsOf(day).Year() <= 9999 && t == ToIsoDateOnly(day)
  {
    if FieldsOf(day).Year() <= 9999 {
      IsoReadsBack(day);
    } else {
      assert ToIsoDateOnly(day)[0] == PLUS;
    }
  }

  // ---------------------------------------------------------------- the text of a civil date

  predicate IsDecimalDigit(c: CodeUnit) {
    '0' as int <= c <= '9' as int
  }

  function DecimalDigit(c: CodeUnit): int {
    c - '0' as int
  }

  /** Four digits of the year, two of the month counted from 1, two of the day, with hyphens between. */
  ghost predicate SpellsDate(t: Text, year: int, month: int, day: int) {
    && |t| == 10 && t[4] == '-' as int && t[7] == '-' as int
    && (forall i | 0 <= i < 10 && i != 4 && i != 7 :: IsDecimalDigit(t[i]))
    && year == 1000 * DecimalDigit(t[0]) + 100 * DecimalDigit(t[1]) + 10 * DecimalDigit(t[2]) + DecimalDigit(t[3])
    && month == 10 * DecimalDigit(t[5]) + DecimalDigit(t[6])
    && day == 10 * DecimalDigit(t[8]) + DecimalDigit(t[9])
  }

  lemma DigitsOnce(a: int, b: int, c: int, d: int)
    requires 0 <= b < 10 && 0 <= d < 10 && 10 * a + b == 10 * c + d
    ensures a == c && b == d
  {
  }

  lemma SpelledOnce(t: Text, u: Text, year: int, month: int, day: int)
    requires SpellsDate(t, year, month, day) && SpellsDate(u, year, month, day)
    ensures t == u
  {
    assert forall i | 0 <= i < 10 && i != 4 && i != 7 :: IsDecimalDigit(t[i]) && IsDecimalDigit(u[i]);
    var a, b := DecimalDigit(t[0]), DecimalDigit(u[0]);
    DigitsOnce(100 * a + 10 * DecimalDigit(t[1]) + DecimalDigit(t[2]), DecimalDigit(t[3]),
               100 * b + 10 * DecimalDigit(u[1]) + DecimalDigit(u[2]), DecimalDigit(u[3]));
    DigitsOnce(10 * a + DecimalDigit(t[1]), DecimalDigit(t[2]), 10 * b + DecimalDigit(u[1]), DecimalDigit(u[2]));
    DigitsOnce(a, DecimalDigit(t[1]), b, DecimalDigit(u[1]));
    DigitsOnce(DecimalDigit(t[5]), DecimalDigit(t[6]), DecimalDigit(u[5]), DecimalDigit(u[6]));
    DigitsOnce(DecimalDigit(t[8]), DecimalDigit(t[9]), DecimalDigit(u[8]), DecimalDigit(u[9]));
  }

  lemma TwoDigitsSpell(n: nat)
    requires n < 100
    ensures
      var t := TwoDigits(n);
      IsDecimalDigit(t[0]) && IsDecimalDigit(t[1]) && n == 10 * DecimalDigit(t[0]) + DecimalDigit(t[1])
  {
  }

  lemma IsoTextSpells(f: Fields)
    requires f.Valid() && f.Year() <= 9999
    ensures SpellsDate(IsoText(f), f.Year(), f.Month() + 1, f.day)
  {
    var year, month, day := f.Year(), f.Month() + 1, f.day;
    var t := IsoText(f);
    TwoDigitsSpell(year / 100);
    TwoDigitsSpell(year % 100);
    TwoDigitsSpell(month);
    TwoDigitsSpell(day);
    assert t[0] == TwoDigits(year / 100)[0] && t[1] == TwoDigits(year / 100)[1];
    assert t[2] == TwoDigits(year % 100)[0] && t[3] == TwoDigits(year % 100)[1];
    assert t[5] == TwoDigits(month)[0] && t[6] == TwoDigits(month)[1];
    assert t[8] == TwoDigits(day)[0] && t[9] == TwoDigits(day)[1];
  }

  lemma SpelledIff(t: Text, f: Fields)
    requires f.Valid() && f.Year() <= 9999
    ensures ParseIsoDateOnly(Some(t)) == Some(DayOf(f)) <==> SpellsDate(t, f.Year(), f.Month() + 1, f.day)
  {
    FieldsOfDayOf(f);
    IsoTextSpells(f);
    ParseIffWritten(t, DayOf(f));
    if SpellsDate(t, f.Year(), f.Month() + 1, f.day) {
      SpelledOnce(t, IsoText(f), f.Year(), f.Month() + 1, f.day);
    }
  }

  /** A text is read as a date of the civil calendar exactly when it spells that date. */
  lemma ParseIffSpelled(t: Text, year: nat, month: nat, day: nat)
    requires IsDate(year, month, day) && year <= 9999
    ensures CivilDay(year, month, day) >= 0
    ensures ParseIsoDateOnly(Some(t)) == Some(CivilDay(year, month, day)) <==> SpellsDate(t, year, month + 1, day)
  {
    DayOfIsCivil(year, month, day);
    MonthAndYear(year, month);
    SpelledIff(t, Fields(12 * year + month, day));
  }
}

/**
 What one schedule rule has been through: completions credited to it, and credited completions withdrawn by
 a void. Where the rule stands, when its completion day moves back, and when a withdrawal leaves it as if the
 completion had never been.
 */
module ScheduleHistory {
  import opened Wrappers
  import opened Calendar
  import opened CanonicalJobRecord
  import opened FrequencyCascade
  import opened CompletionCascade

  datatype RuleEvent = Credited(job: nat, at: Instant) | Withdrawn(job: nat, dueOn: Day)

  datatype Credit = Credit(job: nat, at: Instant)

  function Without(cs: seq<Credit>, job: nat): seq<Credit> {
    if cs == [] then []
    else Without(cs[..|cs| - 1], job) + if cs[|cs| - 1].job == job then [] else [cs[|cs| - 1]]
  }

  /** The completions credited and not withdrawn. */
  function Remaining(events: seq<RuleEvent>): seq<Credit> {
    if events == [] then []
    else
      var earlier := Remaining(events[..|events| - 1]);
      match events[|events| - 1]
      case Credited(job, at) => earlier + [Credit(job, at)]
      case Withdrawn(job, _) => Without(earlier, job)
  }

  function Newest(cs: seq<Credit>): Option<Instant> {
    if cs == [] then None else Some(Later(Newest(cs[..|cs| - 1]), cs[|cs| - 1].at))
  }

  function Dates(rule: Rule): RuleDates {
    RuleDates(rule.lastCompletedOn, rule.nextDueOn)
  }

  /** The rule's dates after the events, each of which sets them anew. */
  function DatesAfter(rule: Rule, events: seq<RuleEvent>, due: DueRule): RuleDates {
    if events == [] then Dates(rule)
    else
      match events[|events| - 1]
      case Credited(_, at) => CompletedOn(UtcDate(at), rule.frequency, due)
      case Withdrawn(_, dueOn) => DatesFrom(Newest(Remaining(events)), dueOn, rule.frequency, due)
  }

  ghost predicate IsAmong(cs: seq<Credit>, job: nat) {
    exists i | 0 <= i < |cs| :: cs[i].job == job
  }

  /** Each job is credited once, and withdrawn only while it is credited. */
  ghost predicate WellFormed(events: seq<RuleEvent>) {
    forall n: nat | n < |events| ::
      match events[n]
      case Credited(job, _) => forall m: nat | m < n && events[m].Credited? :: events[m].job != job
      case Withdrawn(job, _) => IsAmong(Remaining(events[..n]), job)
  }

  // ---------------------------------------------------------------- remaining completions

  lemma {:induction false} NewestIs(cs: seq<Credit>)
    ensures Newest(cs).None? <==> cs == []
    ensures Newest(cs).Some? ==>
      && (exists i | 0 <= i < |cs| :: cs[i].at == Newest(cs).value)
      && forall i | 0 <= i < |cs| :: cs[i].at <= Newest(cs).value
  {
    if cs != [] {
      var init := cs[..|cs| - 1];
      NewestIs(init);
      if init != [] {
        var i :| 0 <= i < |init| && init[i].at == Newest(init).value;
        assert cs[i].at == Newest(init).value;
      }
      assert cs[|cs| - 1].at == cs[|cs| - 1].at;
    }
  }

  lemma {:induction false} WithoutMember(cs: seq<Credit>, job: nat, c: Credit)
    ensures c in Without(cs, job) <==> c in cs && c.job != job
  {
    if cs != [] {
      WithoutMember(cs[..|cs| - 1], job, c);
      assert cs == cs[..|cs| - 1] + [cs[|cs| - 1]];
    }
  }

  lemma RemainingNext(events: seq<RuleEvent>, e: RuleEvent)
    ensures Remaining(events + [e]) ==
      if e.Credited? then Remaining(events) + [Credit(e.job, e.at)] else Without(Remaining(events), e.job)
  {
    assert (events + [e])[..|events|] == events;
  }

  /** What remains was credited. */
  lemma {:induction false} RemainingCredited(events: seq<RuleEvent>, c: Credit)
    requires c in Remaining(events)
    ensures Credited(c.job, c.at) in events
  {
    var init, last := events[..|events| - 1], events[|events| - 1];
    assert events == init + [last];
    match last
    case Credited(job, at) =>
      if c != Credit(job, at) {
        RemainingCredited(init, c);
      }
    case Withdrawn(job, _) =>
      WithoutMember(Remaining(init), job, c);
      RemainingCredited(init, c);
  }

  lemma {:induction false} OneCreditEach(events: seq<RuleEvent>, c: Credit, d: Credit)
    requires WellFormed(events) && c in Remaining(events) && d in Remaining(events) && c.job == d.job
    ensures c == d
  {
    RemainingCredited(events, c);
    RemainingCredited(events, d);
    var i :| 0 <= i < |events| && events[i] == Credited(c.job, c.at);
    var j :| 0 <= j < |events| && events[j] == Credited(d.job, d.at);
    assert i == j;
  }

  // ---------------------------------------------------------------- where the rule stands

  /** The rule stands where its newest remaining completion puts it, without one at the last voided job's due date. */
  ghost predicate StandsByNewest(rule: Rule, events: seq<RuleEvent>, due: DueRule)
    requires events != []
  {
    match Newest(Remaining(events))
    case Some(t) => DatesAfter(rule, events, due) == CompletedOn(UtcDate(t), rule.frequency, due)
    case None =>
      var last := events[|events| - 1];
      last.Withdrawn? && DatesAfter(rule, events, due) == RuleDates(None, last.dueOn)
  }

  /** Some completion is of a later day. */
  ghost predicate LaterDayAmong(cs: seq<Credit>, at: Instant) {
    exists i | 0 <= i < |cs| :: UtcDate(at) < UtcDate(cs[i].at)
  }

  lemma LaterDayIff(cs: seq<Credit>, at: Instant, t: Instant)
    requires Newest(cs) == Some(t)
    ensures LaterDayAmong(cs, at) <==> UtcDate(at) < UtcDate(t)
  {
    NewestIs(cs);
    var top :| 0 <= top < |cs| && cs[top].at == t;
    if LaterDayAmong(cs, at) {
      var i :| 0 <= i < |cs| && UtcDate(at) < UtcDate(cs[i].at);
      UtcDateMonotone(cs[i].at, t);
    }
  }

  lemma SameDatesIff(a: Day, b: Day, f: Frequency, due: DueRule)
    ensures CompletedOn(a, f, due) == CompletedOn(b, f, due) <==> a == b
  {
  }

  lemma CreditedLast(events: seq<RuleEvent>)
    requires events != [] && events[|events| - 1].Credited?
    ensures
      var at, newest := events[|events| - 1].at, Newest(Remaining(events));
      newest.Some? && at <= newest.value
  {
    var last, cs := events[|events| - 1], Remaining(events);
    assert cs[|cs| - 1] == Credit(last.job, last.at);
    NewestIs(cs);
  }

  /** It does, except right after crediting a completion of an earlier day than one that remains. */
  lemma StandsByNewestIff(rule: Rule, events: seq<RuleEvent>, due: DueRule)
    requires events != []
    ensures
      var last := events[|events| - 1];
      StandsByNewest(rule, events, due) <==> !(last.Credited? && LaterDayAmong(Remaining(events), last.at))
  {
    var last, cs := events[|events| - 1], Remaining(events);
    if last.Credited? {
      CreditedLast(events);
      var t := Newest(cs).value;
      UtcDateMonotone(last.at, t);
      LaterDayIff(cs, last.at, t);
      SameDatesIff(UtcDate(last.at), UtcDate(t), rule.frequency, due);
    } else {
      assert DatesAfter(rule, events, due) == DatesFrom(Newest(cs), last.dueOn, rule.frequency, due);
    }
  }

  // ---------------------------------------------------------------- when the completion day moves back

  function DayAfter(rule: Rule, events: seq<RuleEvent>, due: DueRule): Option<Day> {
    DatesAfter(rule, events, due).lastCompletedOn
  }

  ghost predicate IsBefore(later: Option<Day>, earlier: Option<Day>) {
    earlier.Some? && (later.None? || later.value < earlier.value)
  }

  /** Event `n` moves the completion day back, or clears it. */
  ghost predicate MovesBack(rule: Rule, events: seq<RuleEvent>, due: DueRule, n: nat)
    requires n < |events|
  {
    IsBefore(DayAfter(rule, events[..n + 1], due), DayAfter(rule, events[..n], due))
  }

  /** Every completion credited before event `n` is of that day or an earlier one. */
  ghost predicate CreditedBy(events: seq<RuleEvent>, n: nat, day: Day)
    requires n <= |events|
  {
    forall m: nat | m < n && events[m].Credited? :: UtcDate(events[m].at) <= day
  }

  /** Among the completions is one of the day of the job's own, or of a later one. */
  ghost predicate HasRival(cs: seq<Credit>, own: seq<Credit>, job: nat) {
    exists i, j | 0 <= i < |cs| && 0 <= j < |own| ::
      own[j].job == job && UtcDate(own[j].at) <= UtcDate(cs[i].at)
  }

  /**
   A credited completion is of no earlier day than any before it, nor than the day the rule started with; a
   withdrawn one leaves another of its day or a later one.
   */
  ghost predicate KeepsDay(rule: Rule, events: seq<RuleEvent>, n: nat)
    requires n < |events|
  {
    match events[n]
    case Credited(_, at) =>
      && CreditedBy(events, n, UtcDate(at))
      && (n == 0 && rule.lastCompletedOn.Some? ==> rule.lastCompletedOn.value <= UtcDate(at))
    case Withdrawn(job, _) => HasRival(Remaining(events[..n + 1]), Remaining(events[..n]), job)
  }

  /** The completion day is that of the newest remaining completion, and no credited one is of a later day. */
  ghost predicate AtTop(rule: Rule, events: seq<RuleEvent>, due: DueRule, n: nat)
    requires n <= |events|
  {
    n > 0 ==>
      && Newest(Remaining(events[..n])).Some?
      && DayAfter(rule, events[..n], due) == Some(UtcDate(Newest(Remaining(events[..n])).value))
      && CreditedBy(events, n, UtcDate(Newest(Remaining(events[..n])).value))
  }

  lemma Prefix(events: seq<RuleEvent>, n: nat)
    requires n < |events|
    ensures events[..n + 1] == events[..n] + [events[n]]
  {
  }

  /** The newest of all after one more. */
  lemma NewestNext(cs: seq<Credit>, c: Credit)
    ensures Newest(cs + [c]) == Some(Later(Newest(cs), c.at))
  {
    assert (cs + [c])[..|cs|] == cs;
  }

  /** The top day is that of a completion credited before event `n`. */
  lemma TopIsCredited(events: seq<RuleEvent>, n: nat)
    requires n <= |events| && Newest(Remaining(events[..n])).Some?
    ensures exists m: nat | m < n :: events[m].Credited? && events[m].at == Newest(Remaining(events[..n])).value
  {
    var cs := Remaining(events[..n]);
    NewestIs(cs);
    var i :| 0 <= i < |cs| && cs[i].at == Newest(cs).value;
    RemainingCredited(events[..n], cs[i]);
    var m :| 0 <= m < n && events[..n][m] == Credited(cs[i].job, cs[i].at);
    assert events[m] == Credited(cs[i].job, cs[i].at);
  }

  /** A completion is of no earlier day than any before it exactly when it is of no earlier day than the top one. */
  lemma CreditedByIff(events: seq<RuleEvent>, n: nat, t: Instant, at: Instant)
    requires n <= |events| && Newest(Remaining(events[..n])) == Some(t) && CreditedBy(events, n, UtcDate(t))
    ensures CreditedBy(events, n, UtcDate(at)) <==> UtcDate(t) <= UtcDate(at)
    ensures CreditedBy(events, n, UtcDate(at)) ==> UtcDate(Later(Some(t), at)) == UtcDate(at)
  {
    TopIsCredited(events, n);
    if t > at {
      UtcDateMonotone(at, t);
    }
  }

  lemma CreditStepIff(rule: Rule, events: seq<RuleEvent>, due: DueRule, n: nat)
    requires n < |events| && events[n].Credited? && AtTop(rule, events, due, n)
    ensures !MovesBack(rule, events, due, n) <==> KeepsDay(rule, events, n)
    ensures KeepsDay(rule, events, n) ==> AtTop(rule, events, due, n + 1)
  {
    var at, cs := events[n].at, Remaining(events[..n]);
    var after := events[..n + 1];
    assert Newest(Remaining(after)) == Some(Later(Newest(cs), at)) by {
      Prefix(events, n);
      RemainingNext(events[..n], events[n]);
      NewestNext(cs, Credit(events[n].job, at));
    }
    assert after[n] == events[n];
    if n > 0 {
      CreditedByIff(events, n, Newest(cs).value, at);
    } else {
      assert cs == [];
    }
  }

  lemma WellFormedPrefix(events: seq<RuleEvent>, n: nat)
    requires WellFormed(events) && n <= |events|
    ensures WellFormed(events[..n])
  {
    forall m: nat | m < n ensures events[..n][..m] == events[..m] {
    }
  }

  /** The withdrawn completion has a rival exactly when one of the top day remains. */
  lemma WithdrawalIff(events: seq<RuleEvent>, cs: seq<Credit>, left: seq<Credit>, job: nat, t: Instant)
    requires WellFormed(events) && cs == Remaining(events) && left == Without(cs, job) && IsAmong(cs, job)
    requires Newest(cs) == Some(t)
    ensures HasRival(left, cs, job) <==> exists i | 0 <= i < |left| :: UtcDate(t) <= UtcDate(left[i].at)
  {
    NewestIs(cs);
    var top :| 0 <= top < |cs| && cs[top].at == t;
    var own :| 0 <= own < |cs| && cs[own].job == job;
    UtcDateMonotone(cs[own].at, t);
    if HasRival(left, cs, job) {
      RivalReachesTop(events, cs, left, job, top);
    }
    if exists i | 0 <= i < |left| :: UtcDate(t) <= UtcDate(left[i].at) {
      var i :| 0 <= i < |left| && UtcDate(t) <= UtcDate(left[i].at);
      assert UtcDate(cs[own].at) <= UtcDate(left[i].at);
    }
  }

  /** A rival of the withdrawn completion is of the top day, or the top one itself remains. */
  lemma RivalReachesTop(events: seq<RuleEvent>, cs: seq<Credit>, left: seq<Credit>, job: nat, top: nat)
    requires WellFormed(events) && cs == Remaining(events) && left == Without(cs, job) && HasRival(left, cs, job)
    requires top < |cs|
    ensures exists i | 0 <= i < |left| :: UtcDate(cs[top].at) <= UtcDate(left[i].at)
  {
    if cs[top].job == job {
      var i, j :| 0 <= i < |left| && 0 <= j < |cs| && cs[j].job == job && UtcDate(cs[j].at) <= UtcDate(left[i].at);
      OneCreditEach(events, cs[top], cs[j]);
    } else {
      WithoutMember(cs, job, cs[top]);
      var i :| 0 <= i < |left| && left[i] == cs[top];
    }
  }

  /** After a withdrawal the day is that of the newest left, or none. */
  lemma DayAfterWithdrawal(rule: Rule, events: seq<RuleEvent>, due: DueRule, n: nat)
    requires n < |events| && events[n].Withdrawn?
    ensures
      var left := Newest(Remaining(events[..n + 1]));
      DayAfter(rule, events[..n + 1], due) == if left.None? then None else Some(UtcDate(left.value))
  {
    assert events[..n + 1][n] == events[n];
  }

  /** Where the top day is left, and only there, the newest left is of that day. */
  lemma TopLeftIff(left: seq<Credit>, t: Instant)
    requires left != []
    ensures Newest(left).Some?
    ensures UtcDate(t) <= UtcDate(Newest(left).value)
            <==> exists i | 0 <= i < |left| :: UtcDate(t) <= UtcDate(left[i].at)
  {
    NewestIs(left);
    var top :| 0 <= top < |left| && left[top].at == Newest(left).value;
    forall i | 0 <= i < |left| ensures UtcDate(left[i].at) <= UtcDate(Newest(left).value) {
      UtcDateMonotone(left[i].at, Newest(left).value);
    }
  }

  /** The newest of those left is of the top day, or of an earlier one without a rival. */
  lemma NewestLeft(events: seq<RuleEvent>, cs: seq<Credit>, left: seq<Credit>, job: nat, t: Instant)
    requires WellFormed(events) && cs == Remaining(events) && left == Without(cs, job) && IsAmong(cs, job)
    requires Newest(cs) == Some(t)
    ensures HasRival(left, cs, job) <==> left != [] && UtcDate(t) <= UtcDate(Newest(left).value)
    ensures HasRival(left, cs, job) ==> UtcDate(Newest(left).value) == UtcDate(t)
  {
    WithdrawalIff(events, cs, left, job, t);
    if left != [] {
      TopLeftIff(left, t);
      LeftIsNoLater(cs, left, job, t);
    }
  }

  /** A withdrawal credits nothing, so what bounded the credited days still does. */
  lemma StillCreditedBy(events: seq<RuleEvent>, n: nat, day: Day)
    requires n < |events| && events[n].Withdrawn? && CreditedBy(events, n, day)
    ensures CreditedBy(events, n + 1, day)
  {
  }

  lemma WithdrawStepIff(rule: Rule, events: seq<RuleEvent>, due: DueRule, n: nat)
    requires WellFormed(events) && n < |events| && events[n].Withdrawn? && AtTop(rule, events, due, n)
    ensures !MovesBack(rule, events, due, n) <==> KeepsDay(rule, events, n)
    ensures KeepsDay(rule, events, n) ==> AtTop(rule, events, due, n + 1)
  {
    var before, after := events[..n], events[..n + 1];
    var cs, left, job := Remaining(before), Remaining(after), events[n].job;
    assert IsAmong(cs, job);
    assert n > 0;
    var t := Newest(cs).value;
    assert left == Without(cs, job) by {
      Prefix(events, n);
      RemainingNext(before, events[n]);
    }
    WellFormedPrefix(events, n);
    NewestLeft(before, cs, left, job, t);
    NewestIs(left);
    DayAfterWithdrawal(rule, events, due, n);
    StillCreditedBy(events, n, UtcDate(t));
  }

  lemma LeftIsNoLater(cs: seq<Credit>, left: seq<Credit>, job: nat, t: Instant)
    requires left == Without(cs, job) && left != [] && Newest(cs) == Some(t)
    ensures Newest(left).Some? && UtcDate(Newest(left).value) <= UtcDate(t)
  {
    NewestIs(cs);
    NewestIs(left);
    var i :| 0 <= i < |left| && left[i].at == Newest(left).value;
    WithoutMember(cs, job, left[i]);
    var j :| 0 <= j < |cs| && cs[j] == left[i];
    UtcDateMonotone(cs[j].at, t);
  }

  lemma StepIff(rule: Rule, events: seq<RuleEvent>, due: DueRule, n: nat)
    requires WellFormed(events) && n < |events| && AtTop(rule, events, due, n)
    ensures !MovesBack(rule, events, due, n) <==> KeepsDay(rule, events, n)
    ensures KeepsDay(rule, events, n) ==> AtTop(rule, events, due, n + 1)
  {
    if events[n].Credited? {
      CreditStepIff(rule, events, due, n);
    } else {
      WithdrawStepIff(rule, events, due, n);
    }
  }

  lemma {:induction false} KeptAtTop(rule: Rule, events: seq<RuleEvent>, due: DueRule, n: nat)
    requires WellFormed(events) && n <= |events|
    requires forall k: nat | k < n :: KeepsDay(rule, events, k)
    ensures AtTop(rule, events, due, n)
  {
    if n > 0 {
      KeptAtTop(rule, events, due, n - 1);
      StepIff(rule, events, due, n - 1);
    }
  }

  lemma {:induction false} NeverBackKeeps(rule: Rule, events: seq<RuleEvent>, due: DueRule, n: nat)
    requires WellFormed(events) && n < |events|
    requires forall k: nat | k <= n :: !MovesBack(rule, events, due, k)
    ensures forall k: nat | k <= n :: KeepsDay(rule, events, k)
  {
    if n > 0 {
      NeverBackKeeps(rule, events, due, n - 1);
    }
    KeptAtTop(rule, events, due, n);
    StepIff(rule, events, due, n);
  }

  ghost predicate NeverMovesBack(rule: Rule, events: seq<RuleEvent>, due: DueRule) {
    forall n: nat | n < |events| :: !MovesBack(rule, events, due, n)
  }

  ghost predicate AllKeepDay(rule: Rule, events: seq<RuleEvent>) {
    forall n: nat | n < |events| :: KeepsDay(rule, events, n)
  }

  /**
   The completion day never moves back exactly when completions are credited in order of their days, and every
   withdrawn one leaves another of its day or a later one.
   */
  lemma NeverMovesBackIff(rule: Rule, events: seq<RuleEvent>, due: DueRule)
    requires WellFormed(events)
    ensures NeverMovesBack(rule, events, due) <==> AllKeepDay(rule, events)
  {
    if events != [] && NeverMovesBack(rule, events, due) {
      NeverBackKeeps(rule, events, due, |events| - 1);
    }
    if AllKeepDay(rule, events) {
      forall n: nat | n < |events| ensures !MovesBack(rule, events, due, n) {
        KeptAtTop(rule, events, due, n);
        StepIff(rule, events, due, n);
      }
    }
  }

  // ---------------------------------------------------------------- as if it had never been

  /** The history without one job. */
  function Removed(events: seq<RuleEvent>, job: nat): seq<RuleEvent> {
    if events == [] then []
    else
      var last := events[|events| - 1];
      Removed(events[..|events| - 1], job) + if last.job == job then [] else [last]
  }

  lemma {:induction false} WithoutCommutes(cs: seq<Credit>, j: nat, k: nat)
    ensures Without(Without(cs, j), k) == Without(Without(cs, k), j)
  {
    if cs != [] {
      var init, last := cs[..|cs| - 1], cs[|cs| - 1];
      WithoutCommutes(init, j, k);
      WithoutLast(Without(init, j), last, k);
      WithoutLast(Without(init, k), last, j);
    }
  }

  lemma WithoutLast(cs: seq<Credit>, last: Credit, job: nat)
    ensures Without(cs + [last], job) == Without(cs, job) + if last.job == job then [] else [last]
    ensures Without(cs + [], job) == Without(cs, job)
  {
    assert (cs + [last])[..|cs|] == cs && cs + [] == cs;
  }

  lemma {:induction false} RemovedRemaining(events: seq<RuleEvent>, job: nat)
    ensures Remaining(Removed(events, job)) == Without(Remaining(events), job)
  {
    if events != [] {
      var init, last := events[..|events| - 1], events[|events| - 1];
      RemovedRemaining(init, job);
      if last.job == job {
        assert Removed(events, job) == Removed(init, job);
        RemovedOwn(init, last, job);
      } else {
        RemainingNext(Removed(init, job), last);
        RemovedOther(init, last, job);
      }
    }
  }

  lemma {:induction false} WithoutTwice(cs: seq<Credit>, job: nat)
    ensures Without(Without(cs, job), job) == Without(cs, job)
  {
    if cs != [] {
      WithoutTwice(cs[..|cs| - 1], job);
      WithoutLast(Without(cs[..|cs| - 1], job), cs[|cs| - 1], job);
    }
  }

  lemma RemovedOwn(events: seq<RuleEvent>, last: RuleEvent, job: nat)
    requires last.job == job
    ensures Without(Remaining(events + [last]), job) == Without(Remaining(events), job)
  {
    RemainingNext(events, last);
    if last.Credited? {
      WithoutLast(Remaining(events), Credit(job, last.at), job);
    } else {
      WithoutTwice(Remaining(events), job);
    }
  }

  lemma RemovedOther(events: seq<RuleEvent>, last: RuleEvent, job: nat)
    requires last.job != job
    ensures Without(Remaining(events + [last]), job) ==
      if last.Credited? then Without(Remaining(events), job) + [Credit(last.job, last.at)]
      else Without(Without(Remaining(events), job), last.job)
  {
    RemainingNext(events, last);
    if last.Credited? {
      WithoutLast(Remaining(events), Credit(last.job, last.at), job);
    } else {
      WithoutCommutes(Remaining(events), last.job, job);
    }
  }

  /** Right after a withdrawal: when the rule stands as if the job had never been credited. */
  ghost predicate LeavesNoTrace(rule: Rule, events: seq<RuleEvent>, due: DueRule)
    requires events != [] && events[|events| - 1].Withdrawn?
  {
    var last := events[|events| - 1];
    var others := Removed(events, last.job);
    if others == [] then Dates(rule) == RuleDates(None, last.dueOn)
    else
      var before := others[|others| - 1];
      if before.Credited?
      then forall i | 0 <= i < |Remaining(events)| :: UtcDate(Remaining(events)[i].at) <= UtcDate(before.at)
      else Remaining(events) != [] || before.dueOn == last.dueOn
  }

  lemma AfterWithdrawal(rule: Rule, events: seq<RuleEvent>, due: DueRule)
    requires events != [] && events[|events| - 1].Withdrawn?
    ensures
      var last := events[|events| - 1];
      && DatesAfter(rule, events, due) == DatesFrom(Newest(Remaining(events)), last.dueOn, rule.frequency, due)
      && Remaining(Removed(events, last.job)) == Remaining(events)
  {
    var init, last := events[..|events| - 1], events[|events| - 1];
    assert events == init + [last];
    RemovedRemaining(events, last.job);
    WithoutTwice(Remaining(init), last.job);
  }

  /** Behind a completion of day `at` that remains, the newest one is of that day. */
  lemma CreditedTop(cs: seq<Credit>, at: Instant)
    requires cs != [] && cs[|cs| - 1].at == at
    ensures Newest(cs).Some?
    ensures UtcDate(Newest(cs).value) == UtcDate(at) <==> forall i | 0 <= i < |cs| :: UtcDate(cs[i].at) <= UtcDate(at)
  {
    NewestIs(cs);
    var top :| 0 <= top < |cs| && cs[top].at == Newest(cs).value;
    UtcDateMonotone(at, Newest(cs).value);
    forall i | 0 <= i < |cs| ensures UtcDate(cs[i].at) <= UtcDate(Newest(cs).value) {
      UtcDateMonotone(cs[i].at, Newest(cs).value);
    }
  }

  /** What the newest remaining completion says against what another history says. */
  lemma WithdrawalAgainstIff(rule: Rule, cs: seq<Credit>, dueOn: Day, others: seq<RuleEvent>, due: DueRule)
    requires Remaining(others) == cs
    ensures
      DatesFrom(Newest(cs), dueOn, rule.frequency, due) == DatesAfter(rule, others, due) <==>
        if others == [] then Dates(rule) == RuleDates(None, dueOn)
        else
          var last := others[|others| - 1];
          if last.Credited? then forall i | 0 <= i < |cs| :: UtcDate(cs[i].at) <= UtcDate(last.at)
          else cs != [] || last.dueOn == dueOn
  {
    NewestIs(cs);
    if others != [] && others[|others| - 1].Credited? {
      var at := others[|others| - 1].at;
      assert cs[|cs| - 1].at == at;
      CreditedTop(cs, at);
      SameDatesIff(UtcDate(Newest(cs).value), UtcDate(at), rule.frequency, due);
    }
  }

  /**
   A withdrawal leaves the rule as if the job had never been credited, except in three cases: nothing else ever
   happened and the rule did not start uncompleted and due when the job was; nothing remains and the job that was
   withdrawn before was due on another day; or a completion of a later day was credited before the newest one.
   */
  lemma AsIfNeverIff(rule: Rule, events: seq<RuleEvent>, due: DueRule)
    requires events != [] && events[|events| - 1].Withdrawn?
    ensures DatesAfter(rule, events, due) == DatesAfter(rule, Removed(events, events[|events| - 1].job), due)
            <==> LeavesNoTrace(rule, events, due)
  {
    var last := events[|events| - 1];
    AfterWithdrawal(rule, events, due);
    WithdrawalAgainstIff(rule, Remaining(events), last.dueOn, Removed(events, last.job), due);
  }

  /** Once another event has followed, a withdrawn job has left no trace. */
  lemma AsIfNeverLater(rule: Rule, events: seq<RuleEvent>, due: DueRule, job: nat)
    requires events != [] && events[|events| - 1].job != job && !IsAmong(Remaining(events), job)
    ensures DatesAfter(rule, events, due) == DatesAfter(rule, Removed(events, job), due)
  {
    RemovedRemaining(events, job);
    WithoutNone(Remaining(events), job);
  }

  lemma {:induction false} WithoutNone(cs: seq<Credit>, job: nat)
    requires !IsAmong(cs, job)
    ensures Without(cs, job) == cs
  {
    if cs != [] {
      var init := cs[..|cs| - 1];
      forall i | 0 <= i < |init| ensures init[i].job != job {
        assert cs[i].job != job;
      }
      WithoutNone(init, job);
      assert cs[|cs| - 1].job != job;
    }
  }
}

/**
 The schedule rules of a plant after any interleaving: where they stand in terms of the jobs still archived,
 when a completion day moves back, and when voiding an archived job leaves the schedule as if that job had
 never been completed.
 */
module PlantSchedule {
  import opened Wrappers
  import opened Traces
  import opened Calendar
  import opened FrequencyCascade
  import opened CompletionCascade
  import opened ScheduleHistory
  import opened CanonicalJobRecord
  import opened JobProtocol
  import opened CompletionRuns

  // ---------------------------------------------------------------- where a rule stands

  /** A job still archived covers the rule, and was verified on a later day. */
  ghost predicate LaterDayArchived(jobs: seq<TrackedJob>, rule: Rule, at: Instant) {
    exists i: nat, t: Instant :: CreditedNow(jobs, rule, i, t) && UtcDate(at) < UtcDate(t)
  }

  lemma LaterDayAgrees(jobs: seq<TrackedJob>, rule: Rule, events: seq<RuleEvent>, at: Instant)
    requires HistoryFits(jobs, rule, events)
    ensures LaterDayArchived(jobs, rule, at) <==> LaterDayAmong(Remaining(events), at)
  {
    var cs := Remaining(events);
    if LaterDayArchived(jobs, rule, at) {
      var i: nat, t: Instant :| CreditedNow(jobs, rule, i, t) && UtcDate(at) < UtcDate(t);
      assert Credit(i, t) in cs;
      var k :| 0 <= k < |cs| && cs[k] == Credit(i, t);
    }
    if LaterDayAmong(cs, at) {
      var k :| 0 <= k < |cs| && UtcDate(at) < UtcDate(cs[k].at);
      assert cs[k] in cs;
      assert CreditedNow(jobs, rule, cs[k].job, cs[k].at);
    }
  }

  /** The dates that the newest completion still archived gives, and without one the due date last fallen back to. */
  function DatesByArchived(jobs: seq<TrackedJob>, rule: Rule, last: RuleEvent, due: DueRule): RuleDates {
    DatesFrom(NewestVerified(History(jobs), rule.assetDocumentId, None, rule.frequency),
              if last.Withdrawn? then last.dueOn else 0, rule.frequency, due)
  }

  /**
   Once anything has moved a rule, it stands where the newest completion still archived puts it, or without one at
   the due date of the job voided last; except right after the archiving of a job that was verified on an earlier
   day than one still archived.
   */
  lemma RuleStandsByArchivedIff(env: Env, due: DueRule, plant: Plant, run: seq<Arrival>, i: nat)
    requires IsFreshPlant(plant) && i < |plant.rules|
    requires EventsOf(env, due, plant, run, plant.rules[i]) != []
    ensures |RunPlant(env, due, plant, run).rules| == |plant.rules|
    ensures
      var rule, after := plant.rules[i], RunPlant(env, due, plant, run);
      var events := EventsOf(env, due, plant, run, rule);
      var last := events[|events| - 1];
      Dates(after.rules[i]) == DatesByArchived(after.jobs, rule, last, due) <==>
        !(last.Credited? && LaterDayArchived(after.jobs, rule, last.at))
  {
    var rule, after := plant.rules[i], RunPlant(env, due, plant, run);
    var events := EventsOf(env, due, plant, run, rule);
    var last := events[|events| - 1];
    RulesFollowEvents(env, due, plant, run, i);
    RunFits(env, due, plant, run, rule);
    NewestAgrees(after.jobs, rule, events, None);
    StandsByNewestIff(rule, events, due);
    if last.Credited? {
      CreditedLast(events);
      LaterDayAgrees(after.jobs, rule, events, last.at);
    }
  }

  /** A rule that a completion has moved last falls due strictly after the day it was completed on. */
  lemma RuleFallsDueLater(env: Env, plant: Plant, run: seq<Arrival>, i: nat)
    requires IsFreshPlant(plant) && i < |plant.rules|
    requires EventsOf(env, CalendarDue(), plant, run, plant.rules[i]) != []
    ensures |RunPlant(env, CalendarDue(), plant, run).rules| == |plant.rules|
    ensures
      var after := RunPlant(env, CalendarDue(), plant, run).rules[i];
      after.lastCompletedOn.Some? ==>
        && after.nextDueOn == AddCalendarMonthsClamped(after.lastCompletedOn.value, FrequencyInterval(after.frequency))
        && after.lastCompletedOn.value < after.nextDueOn
  {
    RulesFollowEvents(env, CalendarDue(), plant, run, i);
    var after := RunPlant(env, CalendarDue(), plant, run).rules[i];
    if after.lastCompletedOn.Some? {
      DueAfterCompleted(after.lastCompletedOn.value, after.frequency);
    }
  }

  // ---------------------------------------------------------------- when a completion day moves back

  function RuleAt(env: Env, due: DueRule, plant: Plant, run: seq<Arrival>, i: nat, n: nat): Option<Day>
    requires n <= |run|
  {
    var rules := RunPlant(env, due, plant, run[..n]).rules;
    if i < |rules| then rules[i].lastCompletedOn else None
  }

  function EventsAt(env: Env, due: DueRule, plant: Plant, run: seq<Arrival>, rule: Rule, n: nat): seq<RuleEvent>
    requires n <= |run|
  {
    EventsOf(env, due, plant, run[..n], rule)
  }

  lemma RuleAtIs(env: Env, due: DueRule, plant: Plant, run: seq<Arrival>, i: nat, n: nat)
    requires IsFreshPlant(plant) && i < |plant.rules| && n <= |run|
    ensures RuleAt(env, due, plant, run, i, n)
            == DayAfter(plant.rules[i], EventsAt(env, due, plant, run, plant.rules[i], n), due)
  {
    RulesFollowEvents(env, due, plant, run[..n], i);
  }

  lemma OneMoreArrival(env: Env, due: DueRule, plant: Plant, run: seq<Arrival>, a: Arrival, rule: Rule)
    ensures RunPlant(env, due, plant, run + [a]) == Handle(env, due, RunPlant(env, due, plant, run), a)
    ensures EventsOf(env, due, plant, run + [a], rule)
            == EventsOf(env, due, plant, run, rule) + EventOf(env, RunPlant(env, due, plant, run), a, rule)
  {
    assert (run + [a])[..|run|] == run;
  }

  lemma EventIsOfJob(env: Env, plant: Plant, a: Arrival, rule: Rule)
    ensures |EventOf(env, plant, a, rule)| <= 1
    ensures EventOf(env, plant, a, rule) != [] ==> EventOf(env, plant, a, rule)[0].job == a.job
  {
  }

  function HandleBy(env: Env, due: DueRule): (Plant, Arrival) -> Plant {
    (p: Plant, a: Arrival) => Handle(env, due, p, a)
  }

  function EventBy(env: Env, rule: Rule): (Plant, Arrival) -> seq<RuleEvent> {
    (p: Plant, a: Arrival) => EventOf(env, p, a, rule)
  }

  /** Plants and histories as runs of one transition function. */
  lemma {:induction false} AsTrace(env: Env, due: DueRule, plant: Plant, run: seq<Arrival>, rule: Rule)
    ensures RunPlant(env, due, plant, run) == RunAll(HandleBy(env, due), plant, run)
    ensures EventsOf(env, due, plant, run, rule) == Emitted(HandleBy(env, due), EventBy(env, rule), plant, run)
  {
    if run != [] {
      AsTrace(env, due, plant, run[..|run| - 1], rule);
    }
  }

  lemma EventsPrefix(env: Env, due: DueRule, plant: Plant, run: seq<Arrival>, rule: Rule, n: nat)
    requires n <= |run|
    ensures EventsAt(env, due, plant, run, rule, n) <= EventsOf(env, due, plant, run, rule)
  {
    AsTrace(env, due, plant, run, rule);
    AsTrace(env, due, plant, run[..n], rule);
    EmittedPrefix(HandleBy(env, due), EventBy(env, rule), plant, run, n);
  }

  lemma AtMostOneEvent(env: Env, rule: Rule)
    ensures forall p: Plant, a: Arrival :: |EventBy(env, rule)(p, a)| <= 1
  {
    forall p: Plant, a: Arrival ensures |EventBy(env, rule)(p, a)| <= 1 {
      EventIsOfJob(env, p, a, rule);
    }
  }

  lemma EventsStep(env: Env, due: DueRule, plant: Plant, run: seq<Arrival>, rule: Rule, n: nat)
    requires n < |run|
    ensures
      var now, next := EventsAt(env, due, plant, run, rule, n), EventsAt(env, due, plant, run, rule, n + 1);
      now <= next && |next| <= |now| + 1
  {
    var now := RunPlant(env, due, plant, run[..n]);
    assert run[..n + 1] == run[..n] + [run[n]];
    OneMoreArrival(env, due, plant, run[..n], run[n], rule);
    EventIsOfJob(env, now, run[n], rule);
  }

  /** The arrival behind event `k`. */
  lemma EventArrival(env: Env, due: DueRule, plant: Plant, run: seq<Arrival>, rule: Rule, k: nat) returns (n: nat)
    requires k < |EventsOf(env, due, plant, run, rule)|
    ensures n < |run| && |EventsAt(env, due, plant, run, rule, n)| == k
    ensures |EventsAt(env, due, plant, run, rule, n + 1)| == k + 1
  {
    AsTrace(env, due, plant, run, rule);
    AtMostOneEvent(env, rule);
    n := EmissionPlace(HandleBy(env, due), EventBy(env, rule), plant, run, k);
    AsTrace(env, due, plant, run[..n], rule);
    AsTrace(env, due, plant, run[..n + 1], rule);
  }

  lemma MovesBackByEvent(
    rule: Rule, events: seq<RuleEvent>, due: DueRule, now: seq<RuleEvent>, next: seq<RuleEvent>)
    requires now <= next <= events && |next| <= |now| + 1
    ensures IsBefore(DayAfter(rule, next, due), DayAfter(rule, now, due)) <==>
      |next| == |now| + 1 && MovesBack(rule, events, due, |now|)
  {
    assert now == events[..|now|] && next == events[..|next|];
  }

  ghost predicate IsEventBack(
    env: Env, due: DueRule, plant: Plant, run: seq<Arrival>, rule: Rule, n: nat)
    requires n < |run|
  {
    var k, events := |EventsAt(env, due, plant, run, rule, n)|, EventsOf(env, due, plant, run, rule);
    |EventsAt(env, due, plant, run, rule, n + 1)| == k + 1 && k < |events| && MovesBack(rule, events, due, k)
  }

  /** Arrival `n` moves the completion day back exactly when it is an event that does. */
  lemma ArrivalMovesBackIff(env: Env, due: DueRule, plant: Plant, run: seq<Arrival>, i: nat, n: nat)
    requires IsFreshPlant(plant) && i < |plant.rules| && n < |run|
    ensures IsBefore(RuleAt(env, due, plant, run, i, n + 1), RuleAt(env, due, plant, run, i, n))
            <==> IsEventBack(env, due, plant, run, plant.rules[i], n)
  {
    var rule, events := plant.rules[i], EventsOf(env, due, plant, run, plant.rules[i]);
    RuleAtIs(env, due, plant, run, i, n);
    RuleAtIs(env, due, plant, run, i, n + 1);
    EventsStep(env, due, plant, run, rule, n);
    EventsPrefix(env, due, plant, run, rule, n + 1);
    MovesBackByEvent(rule, events, due, EventsAt(env, due, plant, run, rule, n),
                     EventsAt(env, due, plant, run, rule, n + 1));
  }

  ghost predicate NeverBack(env: Env, due: DueRule, plant: Plant, run: seq<Arrival>, i: nat) {
    forall n: nat | n < |run| ::
      !IsBefore(RuleAt(env, due, plant, run, i, n + 1), RuleAt(env, due, plant, run, i, n))
  }

  lemma NeverBackEvents(env: Env, due: DueRule, plant: Plant, run: seq<Arrival>, i: nat, k: nat)
    requires IsFreshPlant(plant) && i < |plant.rules| && NeverBack(env, due, plant, run, i)
    requires k < |EventsOf(env, due, plant, run, plant.rules[i])|
    ensures !MovesBack(plant.rules[i], EventsOf(env, due, plant, run, plant.rules[i]), due, k)
  {
    var n := EventArrival(env, due, plant, run, plant.rules[i], k);
    ArrivalMovesBackIff(env, due, plant, run, i, n);
  }

  lemma EventsNeverBack(env: Env, due: DueRule, plant: Plant, run: seq<Arrival>, i: nat)
    requires IsFreshPlant(plant) && i < |plant.rules|
    requires NeverMovesBack(plant.rules[i], EventsOf(env, due, plant, run, plant.rules[i]), due)
    ensures NeverBack(env, due, plant, run, i)
  {
    forall n: nat | n < |run|
      ensures !IsBefore(RuleAt(env, due, plant, run, i, n + 1), RuleAt(env, due, plant, run, i, n))
    {
      ArrivalMovesBackIff(env, due, plant, run, i, n);
    }
  }

  /**
   Over any interleaving a rule's `lastCompletedOn` never moves back and is never cleared exactly when the jobs that
   cover it are archived in the order of the days they were verified on, none before the day the rule started with,
   and every one that is voided leaves another archived one of its day or a later one.
   */
  lemma CompletedOnNeverBackIff(env: Env, due: DueRule, plant: Plant, run: seq<Arrival>, i: nat)
    requires IsFreshPlant(plant) && i < |plant.rules|
    ensures
      var rule := plant.rules[i];
      NeverBack(env, due, plant, run, i) <==> AllKeepDay(rule, EventsOf(env, due, plant, run, rule))
  {
    var rule, events := plant.rules[i], EventsOf(env, due, plant, run, plant.rules[i]);
    RunFits(env, due, plant, run, rule);
    NeverMovesBackIff(rule, events, due);
    if NeverBack(env, due, plant, run, i) {
      forall k: nat | k < |events| ensures !MovesBack(rule, events, due, k) {
        NeverBackEvents(env, due, plant, run, i, k);
      }
    }
    if NeverMovesBack(rule, events, due) {
      EventsNeverBack(env, due, plant, run, i);
    }
  }

  // ---------------------------------------------------------------- as if the completion had never been

  /** The run without anything that happens to one job. */
  function WithoutJob(run: seq<Arrival>, job: nat): seq<Arrival> {
    if run == [] then []
    else
      var last := run[|run| - 1];
      WithoutJob(run[..|run| - 1], job) + if last.job == job then [] else [last]
  }

  ghost predicate SameOthers(a: seq<TrackedJob>, b: seq<TrackedJob>, job: nat) {
    |a| == |b| && forall k | 0 <= k < |a| && k != job :: a[k] == b[k]
  }

  lemma SameEvent(env: Env, p: Plant, q: Plant, a: Arrival, rule: Rule, job: nat)
    requires SameOthers(p.jobs, q.jobs, job) && a.job != job
    ensures EventOf(env, p, a, rule) == EventOf(env, q, a, rule)
  {
  }

  lemma OwnArrival(env: Env, due: DueRule, p: Plant, q: Plant, a: Arrival, job: nat)
    requires SameOthers(p.jobs, q.jobs, job) && a.job == job
    ensures SameOthers(Handle(env, due, p, a).jobs, q.jobs, job)
  {
  }

  lemma OtherArrival(env: Env, due: DueRule, p: Plant, q: Plant, a: Arrival, job: nat)
    requires SameOthers(p.jobs, q.jobs, job) && a.job != job
    ensures SameOthers(Handle(env, due, p, a).jobs, Handle(env, due, q, a).jobs, job)
  {
  }

  /** Jobs do not depend on each other, so the history of the rest is the history without the job. */
  lemma {:induction false} OthersUnaffected(
    env: Env, due: DueRule, plant: Plant, run: seq<Arrival>, rule: Rule, job: nat)
    ensures SameOthers(RunPlant(env, due, plant, run).jobs, RunPlant(env, due, plant, WithoutJob(run, job)).jobs, job)
    ensures EventsOf(env, due, plant, WithoutJob(run, job), rule) == Removed(EventsOf(env, due, plant, run, rule), job)
  {
    if run != [] {
      var init, a := run[..|run| - 1], run[|run| - 1];
      var rest := WithoutJob(init, job);
      var p, q := RunPlant(env, due, plant, init), RunPlant(env, due, plant, rest);
      OthersUnaffected(env, due, plant, init, rule, job);
      EventIsOfJob(env, p, a, rule);
      RemovedConcat(EventsOf(env, due, plant, init, rule), EventOf(env, p, a, rule), job);
      if a.job == job {
        OwnArrival(env, due, p, q, a, job);
        assert WithoutJob(run, job) == rest;
      } else {
        OtherArrival(env, due, p, q, a, job);
        OneMoreArrival(env, due, plant, rest, a, rule);
        SameEvent(env, p, q, a, rule, job);
      }
    }
  }

  lemma RemovedConcat(events: seq<RuleEvent>, e: seq<RuleEvent>, job: nat)
    requires |e| <= 1
    ensures Removed(events + e, job) == Removed(events, job) + if e == [] || e[0].job == job then [] else e
  {
    if e == [] {
      assert events + e == events;
    } else {
      assert (events + e)[..|events|] == events && e == [e[0]];
    }
  }

  lemma RedatedSameIff(rule: Rule, a: RuleDates, b: RuleDates)
    ensures Redated(rule, a) == Redated(rule, b) <==> a == b
  {
    assert Dates(Redated(rule, a)) == a && Dates(Redated(rule, b)) == b;
  }

  /**
   Right after an archived job is voided, a rule it covers stands where it would had nothing ever happened to that
   job, exactly when the rule's history leaves no trace of it.
   */
  lemma AsIfNeverCompletedIff(env: Env, due: DueRule, plant: Plant, run: seq<Arrival>, i: nat, job: nat)
    requires IsFreshPlant(plant) && i < |plant.rules|
    requires
      var events := EventsOf(env, due, plant, run, plant.rules[i]);
      events != [] && events[|events| - 1].Withdrawn? && events[|events| - 1].job == job
    ensures
      var without := RunPlant(env, due, plant, WithoutJob(run, job));
      && |RunPlant(env, due, plant, run).rules| == |without.rules| == |plant.rules|
      && (RunPlant(env, due, plant, run).rules[i] == without.rules[i] <==>
            LeavesNoTrace(plant.rules[i], EventsOf(env, due, plant, run, plant.rules[i]), due))
  {
    var rule, events := plant.rules[i], EventsOf(env, due, plant, run, plant.rules[i]);
    RulesFollowEvents(env, due, plant, run, i);
    RulesFollowEvents(env, due, plant, WithoutJob(run, job), i);
    OthersUnaffected(env, due, plant, run, rule, job);
    AsIfNeverIff(rule, events, due);
    RedatedSameIff(rule, DatesAfter(rule, events, due), DatesAfter(rule, Removed(events, job), due));
  }

  /** Once anything else has moved the rule, a job that is voided has left no trace in it. */
  lemma AsIfNeverCompletedLater(env: Env, due: DueRule, plant: Plant, run: seq<Arrival>, i: nat, job: nat)
    requires IsFreshPlant(plant) && i < |plant.rules| && job < |plant.jobs|
    requires |RunPlant(env, due, plant, run).jobs| == |plant.jobs|
    requires RunPlant(env, due, plant, run).jobs[job].world.job.status == Voided
    requires
      var events := EventsOf(env, due, plant, run, plant.rules[i]);
      events != [] && events[|events| - 1].job != job
    ensures
      var without := RunPlant(env, due, plant, WithoutJob(run, job));
      && |RunPlant(env, due, plant, run).rules| == |without.rules| == |plant.rules|
      && RunPlant(env, due, plant, run).rules[i] == without.rules[i]
  {
    var rule, events := plant.rules[i], EventsOf(env, due, plant, run, plant.rules[i]);
    RulesFollowEvents(env, due, plant, run, i);
    RulesFollowEvents(env, due, plant, WithoutJob(run, job), i);
    OthersUnaffected(env, due, plant, run, rule, job);
    NotCredited(env, due, plant, run, rule, job);
    AsIfNeverLater(rule, events, due, job);
  }

  lemma NotCredited(env: Env, due: DueRule, plant: Plant, run: seq<Arrival>, rule: Rule, job: nat)
    requires IsFreshPlant(plant) && job < |RunPlant(env, due, plant, run).jobs|
    requires RunPlant(env, due, plant, run).jobs[job].world.job.status == Voided
    ensures !IsAmong(Remaining(EventsOf(env, due, plant, run, rule)), job)
  {
    RunFits(env, due, plant, run, rule);
    var cs := Remaining(EventsOf(env, due, plant, run, rule));
    forall k | 0 <= k < |cs| ensures cs[k].job != job {
      assert cs[k] in cs;
    }
  }
}

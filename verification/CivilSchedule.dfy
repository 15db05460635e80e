/**
 Schedule rules by the civil calendar: the day an instant falls on, when each frequency falls due, and the dates
 that archiving or voiding a job leaves.
 */
module CivilSchedule {
  import opened Wrappers
  import opened Texts
  import opened Calendar
  import opened CivilCalendar
  import opened FrequencyCascade
  import opened CompletionCascade
  import opened CanonicalJobRecord
  import opened JobProtocol
  import opened SplitRuns
  import opened CompletionRuns
  import opened PlantSchedule

  // ---------------------------------------------------------------- days and intervals

  /** The day begins no later than the instant, and less than 86,400,000 ms before it; 1970 begins at instant 0. */
  ghost predicate IsDayOf(day: int, t: Instant) {
    0 <= t - (day - 719_528) * 86_400_000 < 86_400_000
  }

  lemma UtcDateIsDay(t: Instant)
    ensures if t >= -719_528 * 86_400_000 then IsDayOf(UtcDate(t), t) else UtcDate(t) == 0
  {
    EpochDay(12 * 1970);
    var q := t / 86_400_000;
    assert 86_400_000 * q <= t < 86_400_000 * (q + 1);
  }

  /** `due` is the date so many months after `day`, on the same day of the month or the month's last. */
  ghost predicate IsMonthsAfter(due: Day, day: Day, months: nat) {
    forall year: nat, month: nat, d: nat | IsDate(year, month, d) && CivilDay(year, month, d) == day ::
      FallsIn(12 * (if year < 100 then 1900 + year else year) + month + months, d, due)
  }

  /** In the month `n`, on day `d` or the month's last. */
  ghost predicate FallsIn(n: nat, d: nat, due: Day) {
    exists last: nat :: IsInMonth(n, d, last, due)
  }

  ghost predicate IsInMonth(n: nat, d: nat, last: nat, due: Day) {
    IsClamped(DatesOf(n / 12, n % 12), d, last) && CivilDay(n / 12, n % 12, last) == due
  }

  lemma AddedIsMonthsAfter(day: Day, months: nat)
    ensures IsMonthsAfter(AddCalendarMonthsClamped(day, months), day, months)
  {
    forall year: nat, month: nat, d: nat | IsDate(year, month, d) && CivilDay(year, month, d) == day
      ensures FallsIn(12 * (if year < 100 then 1900 + year else year) + month + months, d,
                      AddCalendarMonthsClamped(day, months))
    {
      var last := AddsCivilMonths(year, month, d, months);
      assert IsInMonth(12 * (if year < 100 then 1900 + year else year) + month + months, d, last,
                       AddCalendarMonthsClamped(day, months));
    }
  }

  /** One, three, six and twelve months. */
  ghost predicate FallsDue(f: Frequency, day: Day, due: Day) {
    match f
    case M1 => IsMonthsAfter(due, day, 1)
    case M3 => IsMonthsAfter(due, day, 3)
    case M6 => IsMonthsAfter(due, day, 6)
    case Y => IsMonthsAfter(due, day, 12)
  }

  /** A completion leaves its own day, and the day its frequency falls due after it. */
  ghost predicate RestartsFrom(rule: Rule, t: Instant) {
    && rule.lastCompletedOn.Some?
    && (t >= -719_528 * 86_400_000 ==> IsDayOf(rule.lastCompletedOn.value, t))
    && FallsDue(rule.frequency, rule.lastCompletedOn.value, rule.nextDueOn)
  }

  lemma CompletionRestarts(rule: Rule, t: Instant)
    ensures RestartsFrom(Redated(rule, CompletedOn(UtcDate(t), rule.frequency, CalendarDue())), t)
  {
    UtcDateIsDay(t);
    AddedIsMonthsAfter(UtcDate(t), FrequencyInterval(rule.frequency));
  }

  /** After any interleaving a rule that has moved and has a completion day falls due by its frequency after it. */
  lemma RuleFallsDueByFrequency(env: Env, plant: Plant, run: seq<Arrival>, i: nat)
    requires IsFreshPlant(plant) && i < |plant.rules|
    requires EventsOf(env, CalendarDue(), plant, run, plant.rules[i]) != []
    ensures |RunPlant(env, CalendarDue(), plant, run).rules| == |plant.rules|
    ensures
      var after := RunPlant(env, CalendarDue(), plant, run).rules[i];
      after.lastCompletedOn.Some? ==> FallsDue(after.frequency, after.lastCompletedOn.value, after.nextDueOn)
  {
    RuleFallsDueLater(env, plant, run, i);
    var after := RunPlant(env, CalendarDue(), plant, run).rules[i];
    if after.lastCompletedOn.Some? {
      AddedIsMonthsAfter(after.lastCompletedOn.value, FrequencyInterval(after.frequency));
    }
  }

  // ---------------------------------------------------------------- archiving and voiding

  /** The rule but for its two dates. */
  ghost predicate SameRule(a: Rule, b: Rule) {
    a.assetDocumentId == b.assetDocumentId && a.frequency == b.frequency && a.intervalMonths == b.intervalMonths
  }

  /**
   The move that archives a job restarts every rule of its document with a frequency in its scope from the day on
   which the final verification started, and no other rule.
   */
  lemma ArchivingRestarts(env: Env, plant: Plant, a: Arrival, i: nat)
    requires AllJobsChecked(plant) && a.job < |plant.jobs| && i < |plant.rules|
    requires plant.jobs[a.job].world.job.status != Archived
    requires Handle(env, CalendarDue(), plant, a).jobs[a.job].world.job.status == Archived
    ensures
      var t, rule, after := plant.jobs[a.job], plant.rules[i], Handle(env, CalendarDue(), plant, a);
      && |after.rules| == |plant.rules| && SameRule(rule, after.rules[i])
      && EndsRequest(t.world, a.move)
      && if rule.assetDocumentId == t.assetDocumentId && rule.frequency in t.frequencyScope
         then RestartsFrom(after.rules[i], t.world.pending[a.move.id].req.now)
         else after.rules[i] == rule
  {
    var t, rule := plant.jobs[a.job], plant.rules[i];
    ArchivesIff(env, t, a.move);
    HandledRule(env, CalendarDue(), plant, a, i);
    CompletionRestarts(rule, StartOf(t, a.move));
  }

  /** The job counts for the rule: archived, of its document, its frequency in scope, verified at `t`. */
  ghost predicate Counts(j: TrackedJob, rule: Rule, t: Instant) {
    && j.assetDocumentId == rule.assetDocumentId && rule.frequency in j.frequencyScope
    && j.world.job.status == Archived && j.world.job.verifiedAt == Some(t)
  }

  ghost predicate IsLatest(jobs: seq<TrackedJob>, rule: Rule, excluded: Text, t: Instant) {
    && (exists k | 0 <= k < |jobs| :: jobs[k].world.job.id != excluded && Counts(jobs[k], rule, t))
    && forall k, u | 0 <= k < |jobs| && jobs[k].world.job.id != excluded && Counts(jobs[k], rule, u) :: u <= t
  }

  lemma LookUpIsLatest(jobs: seq<TrackedJob>, rule: Rule, excluded: Text, found: Option<Instant>)
    requires found == NewestVerified(History(jobs), rule.assetDocumentId, Some(excluded), rule.frequency)
    ensures found.Some? ==> IsLatest(jobs, rule, excluded, found.value)
    ensures found.None? ==>
      forall k, u | 0 <= k < |jobs| && jobs[k].world.job.id != excluded :: !Counts(jobs[k], rule, u)
  {
    var past := History(jobs);
    NewestVerifiedIs(past, rule.assetDocumentId, Some(excluded), rule.frequency);
    forall k, u | 0 <= k < |jobs|
      ensures jobs[k].world.job.id != excluded && Counts(jobs[k], rule, u) <==>
        Credits(past[k], rule.assetDocumentId, Some(excluded), rule.frequency) && past[k].verifiedAt.value == u
    {
    }
  }

  /**
   The move that voids an archived job restarts every rule it covers from the latest verification of another job
   still archived that covers it; with none, the rule is cleared and falls due when the voided job did.
   */
  lemma VoidingFallsBack(env: Env, plant: Plant, a: Arrival, i: nat)
    requires AllJobsChecked(plant) && a.job < |plant.jobs| && i < |plant.rules|
    requires plant.jobs[a.job].world.job.status == Archived
    requires Handle(env, CalendarDue(), plant, a).jobs[a.job].world.job.status != Archived
    ensures
      var t, rule, after := plant.jobs[a.job], plant.rules[i], Handle(env, CalendarDue(), plant, a);
      && |after.rules| == |plant.rules| && SameRule(rule, after.rules[i])
      && if rule.assetDocumentId == t.assetDocumentId && rule.frequency in t.frequencyScope
         then
           || (exists at :: IsLatest(after.jobs, rule, t.world.job.id, at) && RestartsFrom(after.rules[i], at))
           || (&& (forall k, u | 0 <= k < |after.jobs| && after.jobs[k].world.job.id != t.world.job.id ::
                     !Counts(after.jobs[k], rule, u))
               && after.rules[i] == rule.(lastCompletedOn := None, nextDueOn := t.dueOn))
         else after.rules[i] == rule
  {
    var t, rule, after := plant.jobs[a.job], plant.rules[i], Handle(env, CalendarDue(), plant, a);
    var found := NewestVerified(History(after.jobs), rule.assetDocumentId, Some(t.world.job.id), rule.frequency);
    ArchivesIff(env, t, a.move);
    VoidsArchivedIff(env, t, a.move);
    HandledRule(env, CalendarDue(), plant, a, i);
    LookUpIsLatest(after.jobs, rule, t.world.job.id, found);
    if found.Some? {
      CompletionRestarts(rule, found.value);
    }
  }

  // ---------------------------------------------------------------- the audit rows

  /** Each frequency in scope with a rule leaves a row that says what its rules were set to, and there is no other. */
  lemma {:induction false} AuditRowsIff(
    rules: seq<Rule>, c: Cause, scope: seq<Frequency>, target: Frequency -> RuleDates, postArchiveVoid: bool,
    row: RuleAudit)
    ensures row in AuditRows(rules, c, scope, target, postArchiveVoid) <==>
      && row.frequency in scope
      && (exists i | 0 <= i < |rules| ::
            rules[i].assetDocumentId == c.assetDocumentId && rules[i].frequency == row.frequency)
      && row == RuleAudit(c.actorId, c.assetDocumentId, c.assetId, row.frequency, target(row.frequency), c.jobId,
                          postArchiveVoid)
  {
    if scope != [] {
      var last := |scope| - 1;
      AuditRowsIff(rules, c, scope[..last], target, postArchiveVoid, row);
      assert scope == scope[..last] + [scope[last]];
    }
  }
}

/**
 The completion cascade and its reverse. The final verification of a job moves the schedule rules of the
 job's document for every frequency in the job's frozen scope; voiding the archived job puts them where the
 newest remaining completion would, or back to the voided job's own due date.
 */
module CompletionCascade {
  import opened Wrappers
  import opened Texts
  import opened Calendar
  import opened FrequencyCascade
  import opened CanonicalJobRecord

  const MILLIS_PER_DAY := 86_400_000

  /** The day an instant falls on in UTC; instants count from 1970. */
  function UtcDate(t: Instant): Day {
    var day := MonthStart(12 * 1970) + t / MILLIS_PER_DAY;
    if day < 0 then 0 else day
  }

  lemma UtcDateMonotone(s: Instant, t: Instant)
    requires s <= t
    ensures UtcDate(s) <= UtcDate(t)
  {}

  datatype ScopedFrequency = ScopedFrequency(frequency: Frequency, intervalMonths: nat)

  datatype CascadeUpdate = CascadeUpdate(frequency: Frequency, lastCompletedOn: Day, nextDueOn: Day)

  function ComputeCompletionCascade(verifiedOn: Instant, scoped: seq<ScopedFrequency>): (updates: seq<CascadeUpdate>)
    ensures |updates| == |scoped|
  {
    seq(|scoped|, i requires 0 <= i < |scoped| =>
      CascadeUpdate(scoped[i].frequency, UtcDate(verifiedOn),
                    AddCalendarMonthsClamped(UtcDate(verifiedOn), scoped[i].intervalMonths)))
  }

  // ---------------------------------------------------------------- the schedule-rule table

  /** A row of the table; `intervalMonths` is stored with the rule and not consulted by the cascade. */
  datatype Rule = Rule(
    assetDocumentId: Text,
    frequency: Frequency,
    intervalMonths: int,
    lastCompletedOn: Option<Day>,
    nextDueOn: Day
  )

  datatype RuleDates = RuleDates(lastCompletedOn: Option<Day>, nextDueOn: Day)

  datatype RuleAudit = RuleAudit(
    actorId: Option<Text>,
    assetDocumentId: Text,
    assetId: Text,
    frequency: Frequency,
    dates: RuleDates,
    causedByJobId: Text,
    postArchiveVoid: bool
  )

  /** The job whose archiving or voiding moves rules. */
  datatype Cause = Cause(
    jobId: Text, assetDocumentId: Text, assetId: Text, frequencyScope: seq<Frequency>, actorId: Option<Text>)

  /** When a frequency falls due after a completion on a day. */
  type DueRule = (Day, Frequency) -> Day

  function CalendarDue(): DueRule {
    (day: Day, f: Frequency) => AddCalendarMonthsClamped(day, FrequencyInterval(f))
  }

  function CompletedOn(day: Day, f: Frequency, due: DueRule): RuleDates {
    RuleDates(Some(day), due(day, f))
  }

  /** The dates each frequency gets from a completion. */
  function CompletionDates(verifiedOn: Instant, due: DueRule): Frequency -> RuleDates {
    (f: Frequency) => CompletedOn(UtcDate(verifiedOn), f, due)
  }

  function Redated(rule: Rule, dates: RuleDates): Rule {
    rule.(lastCompletedOn := dates.lastCompletedOn, nextDueOn := dates.nextDueOn)
  }

  function Moved(rule: Rule, document: Text, scope: seq<Frequency>, target: Frequency -> RuleDates): Rule {
    if rule.assetDocumentId == document && rule.frequency in scope
    then Redated(rule, target(rule.frequency))
    else rule
  }

  function AllMoved(rules: seq<Rule>, document: Text, scope: seq<Frequency>, target: Frequency -> RuleDates)
    : (after: seq<Rule>)
    ensures |after| == |rules|
  {
    seq(|rules|, i requires 0 <= i < |rules| => Moved(rules[i], document, scope, target))
  }

  /** Rules in scope restart from the day of the verification; every other rule is left alone. */
  function AfterCompletion(rules: seq<Rule>, c: Cause, verifiedOn: Instant, due: DueRule): seq<Rule> {
    AllMoved(rules, c.assetDocumentId, c.frequencyScope, CompletionDates(verifiedOn, due))
  }

  // ---------------------------------------------------------------- the newest remaining completion

  /** What the look-up for a remaining completion sees of a job. */
  datatype PastJob = PastJob(
    id: Text, assetDocumentId: Text, archived: bool, frequencyScope: seq<Frequency>, verifiedAt: Option<Instant>)

  predicate Credits(j: PastJob, document: Text, excluded: Option<Text>, f: Frequency) {
    && j.assetDocumentId == document && excluded != Some(j.id) && j.archived && f in j.frequencyScope
    && j.verifiedAt.Some?
  }

  function Later(a: Option<Instant>, b: Instant): Instant {
    if a.Some? && a.value > b then a.value else b
  }

  function NewestVerified(jobs: seq<PastJob>, document: Text, excluded: Option<Text>, f: Frequency): Option<Instant> {
    if jobs == [] then None
    else
      var earlier := NewestVerified(jobs[..|jobs| - 1], document, excluded, f);
      var j := jobs[|jobs| - 1];
      if Credits(j, document, excluded, f) then Some(Later(earlier, j.verifiedAt.value)) else earlier
  }

  ghost predicate IsNewest(jobs: seq<PastJob>, document: Text, excluded: Option<Text>, f: Frequency, t: Instant) {
    && (exists i | 0 <= i < |jobs| :: Credits(jobs[i], document, excluded, f) && jobs[i].verifiedAt.value == t)
    && forall i | 0 <= i < |jobs| && Credits(jobs[i], document, excluded, f) :: jobs[i].verifiedAt.value <= t
  }

  /** The look-up finds nothing exactly when no job credits the frequency, and otherwise the latest time. */
  lemma {:induction false} NewestVerifiedIs(jobs: seq<PastJob>, document: Text, excluded: Option<Text>, f: Frequency)
    ensures
      match NewestVerified(jobs, document, excluded, f)
      case None => forall i | 0 <= i < |jobs| :: !Credits(jobs[i], document, excluded, f)
      case Some(t) => IsNewest(jobs, document, excluded, f, t)
  {
    if jobs != [] {
      var init := jobs[..|jobs| - 1];
      NewestVerifiedIs(init, document, excluded, f);
      var earlier := NewestVerified(init, document, excluded, f);
      if earlier.Some? {
        var i :| 0 <= i < |init| && Credits(init[i], document, excluded, f)
              && init[i].verifiedAt.value == earlier.value;
        assert Credits(jobs[i], document, excluded, f) && jobs[i].verifiedAt.value == earlier.value;
      }
      assert forall i | 0 <= i < |init| :: init[i] == jobs[i];
    }
  }

  /** `findFirst` with `orderBy: { verifiedAt: 'desc' }` */
  method FindPrior(jobs: seq<PastJob>, document: Text, excluded: Option<Text>, f: Frequency)
    returns (prior: Option<Instant>)
    ensures prior == NewestVerified(jobs, document, excluded, f)
  {
    prior := None;
    for k := 0 to |jobs|
      invariant prior == NewestVerified(jobs[..k], document, excluded, f)
    {
      assert jobs[..k + 1][..k] == jobs[..k];
      if Credits(jobs[k], document, excluded, f) {
        prior := Some(Later(prior, jobs[k].verifiedAt.value));
      }
    }
    assert jobs[..|jobs|] == jobs;
  }

  /** From the newest remaining completion, or without one from the voided job's due date. */
  function DatesFrom(prior: Option<Instant>, dueOn: Day, f: Frequency, due: DueRule): RuleDates {
    match prior
    case None => RuleDates(None, dueOn)
    case Some(t) => CompletedOn(UtcDate(t), f, due)
  }

  function VoidDates(jobs: seq<PastJob>, document: Text, excluded: Option<Text>, dueOn: Day, due: DueRule)
    : Frequency -> RuleDates
  {
    (f: Frequency) => DatesFrom(NewestVerified(jobs, document, excluded, f), dueOn, f, due)
  }

  /** The rules after an archived job was voided; `jobs` is the table with that job voided already. */
  function AfterVoid(rules: seq<Rule>, c: Cause, dueOn: Day, jobs: seq<PastJob>, due: DueRule): seq<Rule> {
    AllMoved(rules, c.assetDocumentId, c.frequencyScope, VoidDates(jobs, c.assetDocumentId, Some(c.jobId), dueOn, due))
  }

  // ---------------------------------------------------------------- the two services

  predicate HasRule(rules: seq<Rule>, document: Text, frequency: Frequency) {
    exists i | 0 <= i < |rules| :: rules[i].assetDocumentId == document && rules[i].frequency == frequency
  }

  /** `updateMany` on one document and frequency. */
  function UpdatedRules(rules: seq<Rule>, document: Text, f: Frequency, dates: RuleDates): seq<Rule> {
    seq(|rules|, i requires 0 <= i < |rules| =>
      if rules[i].assetDocumentId == document && rules[i].frequency == f then Redated(rules[i], dates) else rules[i])
  }

  lemma OneMoreUpdate(
    rules: seq<Rule>, document: Text, scope: seq<Frequency>, target: Frequency -> RuleDates, f: Frequency)
    ensures UpdatedRules(AllMoved(rules, document, scope, target), document, f, target(f))
            == AllMoved(rules, document, scope + [f], target)
    ensures HasRule(AllMoved(rules, document, scope, target), document, f) <==> HasRule(rules, document, f)
  {
    var after := AllMoved(rules, document, scope, target);
    forall i | 0 <= i < |rules|
      ensures after[i].assetDocumentId == rules[i].assetDocumentId && after[i].frequency == rules[i].frequency
    {}
  }

  function AuditRow(c: Cause, f: Frequency, dates: RuleDates, postArchiveVoid: bool): RuleAudit {
    RuleAudit(c.actorId, c.assetDocumentId, c.assetId, f, dates, c.jobId, postArchiveVoid)
  }

  /** One audit row for each scope entry that found a rule, in the order of the scope. */
  function AuditRows(
    rules: seq<Rule>, c: Cause, scope: seq<Frequency>, target: Frequency -> RuleDates, postArchiveVoid: bool)
    : seq<RuleAudit>
  {
    if scope == [] then []
    else
      var f := scope[|scope| - 1];
      AuditRows(rules, c, scope[..|scope| - 1], target, postArchiveVoid)
      + if HasRule(rules, c.assetDocumentId, f) then [AuditRow(c, f, target(f), postArchiveVoid)] else []
  }

  lemma AuditRowsNext(
    rules: seq<Rule>, c: Cause, scope: seq<Frequency>, target: Frequency -> RuleDates, postArchiveVoid: bool,
    f: Frequency)
    ensures AuditRows(rules, c, scope + [f], target, postArchiveVoid)
            == AuditRows(rules, c, scope, target, postArchiveVoid)
               + if HasRule(rules, c.assetDocumentId, f) then [AuditRow(c, f, target(f), postArchiveVoid)] else []
  {
    assert (scope + [f])[..|scope|] == scope;
  }

  function Scoped(scope: seq<Frequency>): seq<ScopedFrequency> {
    seq(|scope|, i requires 0 <= i < |scope| => ScopedFrequency(scope[i], FrequencyInterval(scope[i])))
  }

  ghost predicate IsUpdate(update: CascadeUpdate, f: Frequency, target: Frequency -> RuleDates) {
    update.frequency == f && RuleDates(Some(update.lastCompletedOn), update.nextDueOn) == target(f)
  }

  lemma ComputedUpdate(verifiedOn: Instant, scope: seq<Frequency>, k: nat)
    requires k < |scope|
    ensures IsUpdate(ComputeCompletionCascade(verifiedOn, Scoped(scope))[k], scope[k],
                     CompletionDates(verifiedOn, CalendarDue()))
  {}

  class ScheduleTable {
    var rules: seq<Rule>
    var audit: seq<RuleAudit>

    constructor (rules: seq<Rule>)
      ensures this.rules == rules && audit == []
    {
      this.rules := rules;
      audit := [];
    }

    /** `CompletionCascadeService.apply` */
    method Apply(c: Cause, verifiedOn: Instant)
      modifies this
      ensures rules == AfterCompletion(old(rules), c, verifiedOn, CalendarDue())
      ensures audit == old(audit) + AuditRows(old(rules), c, c.frequencyScope,
                                              CompletionDates(verifiedOn, CalendarDue()), false)
    {
      var updates := ComputeCompletionCascade(verifiedOn, Scoped(c.frequencyScope));
      ghost var target := CompletionDates(verifiedOn, CalendarDue());
      forall k: nat | k < |updates| ensures IsUpdate(updates[k], c.frequencyScope[k], target) {
        ComputedUpdate(verifiedOn, c.frequencyScope, k);
      }
      ApplyUpdates(c, updates, target);
    }

    method ApplyUpdates(c: Cause, updates: seq<CascadeUpdate>, ghost target: Frequency -> RuleDates)
      requires |updates| == |c.frequencyScope|
      requires forall k: nat | k < |updates| :: IsUpdate(updates[k], c.frequencyScope[k], target)
      modifies this
      ensures rules == AllMoved(old(rules), c.assetDocumentId, c.frequencyScope, target)
      ensures audit == old(audit) + AuditRows(old(rules), c, c.frequencyScope, target, false)
    {
      ghost var scope := c.frequencyScope;
      assert rules == AllMoved(rules, c.assetDocumentId, scope[..0], target);
      for k := 0 to |updates|
        invariant rules == AllMoved(old(rules), c.assetDocumentId, scope[..k], target)
        invariant audit == old(audit) + AuditRows(old(rules), c, scope[..k], target, false)
      {
        assert IsUpdate(updates[k], scope[k], target);
        Update(c, updates[k].frequency, RuleDates(Some(updates[k].lastCompletedOn), updates[k].nextDueOn), false,
               old(rules), scope[..k], target);
        assert scope[..k + 1] == scope[..k] + [scope[k]];
        AuditRowsNext(old(rules), c, scope[..k], target, false, scope[k]);
      }
      assert scope[..|scope|] == scope;
    }

    /** `VoidScheduleRecomputeService.apply` */
    method Recompute(c: Cause, dueOn: Day, jobs: seq<PastJob>)
      modifies this
      ensures rules == AfterVoid(old(rules), c, dueOn, jobs, CalendarDue())
      ensures
        var target := VoidDates(jobs, c.assetDocumentId, Some(c.jobId), dueOn, CalendarDue());
        audit == old(audit) + AuditRows(old(rules), c, c.frequencyScope, target, true)
    {
      var scope := c.frequencyScope;
      ghost var target := VoidDates(jobs, c.assetDocumentId, Some(c.jobId), dueOn, CalendarDue());
      assert rules == AllMoved(rules, c.assetDocumentId, scope[..0], target);
      for k := 0 to |scope|
        invariant rules == AllMoved(old(rules), c.assetDocumentId, scope[..k], target)
        invariant audit == old(audit) + AuditRows(old(rules), c, scope[..k], target, true)
      {
        var prior := FindPrior(jobs, c.assetDocumentId, Some(c.jobId), scope[k]);
        var dates := if prior.None? then RuleDates(None, dueOn)
                     else RuleDates(Some(UtcDate(prior.value)),
                                    AddCalendarMonthsClamped(UtcDate(prior.value), FrequencyInterval(scope[k])));
        Update(c, scope[k], dates, true, old(rules), scope[..k], target);
        assert scope[..k + 1] == scope[..k] + [scope[k]];
        AuditRowsNext(old(rules), c, scope[..k], target, true, scope[k]);
      }
      assert scope[..|scope|] == scope;
    }

    /** One `updateMany`, and its audit row where it found a rule. */
    method Update(c: Cause, f: Frequency, dates: RuleDates, postArchiveVoid: bool,
                  ghost start: seq<Rule>, ghost scope: seq<Frequency>, ghost target: Frequency -> RuleDates)
      requires rules == AllMoved(start, c.assetDocumentId, scope, target) && dates == target(f)
      modifies this
      ensures rules == AllMoved(start, c.assetDocumentId, scope + [f], target)
      ensures audit == old(audit) + if HasRule(start, c.assetDocumentId, f)
                                    then [AuditRow(c, f, dates, postArchiveVoid)] else []
    {
      OneMoreUpdate(start, c.assetDocumentId, scope, target, f);
      var found := HasRule(rules, c.assetDocumentId, f);
      rules := UpdatedRules(rules, c.assetDocumentId, f, dates);
      if found {
        audit := audit + [AuditRow(c, f, dates, postArchiveVoid)];
      }
    }
  }

  /** A completed rule falls due again strictly after the day it was completed on. */
  lemma DueAfterCompleted(day: Day, f: Frequency)
    ensures CompletedOn(day, f, CalendarDue()).nextDueOn > day
  {
    AddMovesForward(day, FrequencyInterval(f));
  }
}

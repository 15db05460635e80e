/**
 Jobs and schedule rules together: over any interleaving of requests and captures on any number of jobs, a
 rule moves only with the transaction that archives a job of its document whose frozen scope holds its
 frequency, or that voids such a job after it was archived.
 */
module CompletionRuns {
  import opened Wrappers
  import opened Texts
  import opened Calendar
  import opened FrequencyCascade
  import opened CompletionCascade
  import opened ScheduleHistory
  import opened CanonicalJobRecord
  import opened JobProtocol
  import opened SplitRuns

  /** A job with its document, its due date and the scope frozen into it; an ad-hoc job's scope is empty. */
  datatype TrackedJob = TrackedJob(
    world: World, cfg: Config, assetDocumentId: Text, frequencyScope: seq<Frequency>, dueOn: Day)

  datatype Plant = Plant(jobs: seq<TrackedJob>, rules: seq<Rule>)

  /** A move on the job at a place of the table. */
  datatype Arrival = Arrival(job: nat, move: Move)

  /** The branch of a verification that calls the cascade, in a transaction that is not rolled back. */
  predicate Archives(env: Env, t: TrackedJob, m: Move) {
    EndsRequest(t.world, m) &&
    var p := t.world.pending[m.id];
    p.req.Verify? && StageOf(p.snap, 1) >= t.cfg.stageCount && Commit(env, t.cfg, t.world.job, p.snap, p.req).Ok?
  }

  /** The branch of a void that calls the recompute, in a transaction that is not rolled back. */
  predicate VoidsArchived(env: Env, t: TrackedJob, m: Move) {
    EndsRequest(t.world, m) &&
    var p := t.world.pending[m.id];
    p.req.Void? && p.snap.status == Archived && Commit(env, t.cfg, t.world.job, p.snap, p.req).Ok?
  }

  function StartOf(t: TrackedJob, m: Move): Instant {
    if EndsRequest(t.world, m) then t.world.pending[m.id].req.now else 0
  }

  function CauseOf(t: TrackedJob, m: Move): Cause
    requires EndsRequest(t.world, m)
  {
    Cause(t.world.job.id, t.assetDocumentId, t.world.job.assetId, t.frequencyScope,
          Some(t.world.pending[m.id].req.actor))
  }

  function PastJobOf(t: TrackedJob): PastJob {
    PastJob(t.world.job.id, t.assetDocumentId, t.world.job.status == Archived, t.frequencyScope, t.world.job.verifiedAt)
  }

  function History(jobs: seq<TrackedJob>): (past: seq<PastJob>)
    ensures |past| == |jobs|
  {
    seq(|jobs|, i requires 0 <= i < |jobs| => PastJobOf(jobs[i]))
  }

  function Advanced(env: Env, t: TrackedJob, m: Move): TrackedJob {
    t.(world := Next(env, t.cfg, t.world, m))
  }

  function RulesAfter(
    env: Env, due: DueRule, rules: seq<Rule>, t: TrackedJob, jobs: seq<TrackedJob>, m: Move): seq<Rule>
  {
    if Archives(env, t, m) then AfterCompletion(rules, CauseOf(t, m), StartOf(t, m), due)
    else if VoidsArchived(env, t, m) then AfterVoid(rules, CauseOf(t, m), t.dueOn, History(jobs), due)
    else rules
  }

  function Handle(env: Env, due: DueRule, plant: Plant, a: Arrival): Plant {
    if a.job >= |plant.jobs| then plant
    else
      var t := plant.jobs[a.job];
      var jobs := plant.jobs[a.job := Advanced(env, t, a.move)];
      Plant(jobs, RulesAfter(env, due, plant.rules, t, jobs, a.move))
  }

  function RunPlant(env: Env, due: DueRule, plant: Plant, run: seq<Arrival>): Plant {
    if run == [] then plant
    else Handle(env, due, RunPlant(env, due, plant, run[..|run| - 1]), run[|run| - 1])
  }

  predicate CoversRule(t: TrackedJob, rule: Rule) {
    t.assetDocumentId == rule.assetDocumentId && rule.frequency in t.frequencyScope
  }

  // ---------------------------------------------------------------- the two branches and the status

  lemma ArchivesIff(env: Env, t: TrackedJob, m: Move)
    requires AllChecked(t.cfg, t.world)
    ensures
      var after := Advanced(env, t, m).world.job;
      && (Archives(env, t, m) <==> t.world.job.status != Archived && after.status == Archived)
      && (Archives(env, t, m) ==> after.verifiedAt == Some(StartOf(t, m)))
  {
    if EndsRequest(t.world, m) {
      var p := t.world.pending[m.id];
      assert Checked(t.cfg, p);
      if Commit(env, t.cfg, t.world.job, p.snap, p.req).Ok? {
        CommitTakesLegalEdge(env, t.cfg, t.world.job, p.snap, p.req);
      }
    }
  }

  lemma VoidsArchivedIff(env: Env, t: TrackedJob, m: Move)
    requires AllChecked(t.cfg, t.world)
    ensures
      var after := Advanced(env, t, m).world.job.status;
      && (VoidsArchived(env, t, m) <==> t.world.job.status == Archived && after != Archived)
      && (VoidsArchived(env, t, m) ==> after == Voided)
  {
    TerminalKept(env, t.cfg, t.world, m);
    if EndsRequest(t.world, m) {
      var p := t.world.pending[m.id];
      assert Checked(t.cfg, p);
      if Commit(env, t.cfg, t.world.job, p.snap, p.req).Ok? {
        CommitTakesLegalEdge(env, t.cfg, t.world.job, p.snap, p.req);
      }
    }
  }

  lemma CommitKeepsVerified(env: Env, cfg: Config, cur: Job, snap: Job, req: JobProtocol.Request)
    requires Commit(env, cfg, cur, snap, req).Ok?
    ensures
      var after := Commit(env, cfg, cur, snap, req).value;
      && after.id == cur.id
      && (!(req.Verify? && StageOf(snap, 1) >= cfg.stageCount) ==> after.verifiedAt == cur.verifiedAt)
  {
  }

  lemma CaptureKeepsVerified(cur: Job, snap: Job, c: JobProtocol.Capture)
    ensures CaptureWrite(cur, snap, c).id == cur.id && CaptureWrite(cur, snap, c).verifiedAt == cur.verifiedAt
  {
  }

  /** Any other move leaves the time of verification alone, and the job's id. */
  lemma VerifiedKept(env: Env, t: TrackedJob, m: Move)
    ensures
      var after := Advanced(env, t, m).world.job;
      after.id == t.world.job.id && (!Archives(env, t, m) ==> after.verifiedAt == t.world.job.verifiedAt)
  {
    if m.End? && m.id in t.world.pending {
      match t.world.pending[m.id]
      case PendingRequest(snap, req) =>
        if Commit(env, t.cfg, t.world.job, snap, req).Ok? {
          CommitKeepsVerified(env, t.cfg, t.world.job, snap, req);
        }
      case PendingCapture(snap, c) => CaptureKeepsVerified(t.world.job, snap, c);
    }
  }

  // ---------------------------------------------------------------- plants over runs

  ghost predicate AllJobsChecked(plant: Plant) {
    forall i | 0 <= i < |plant.jobs| :: AllChecked(plant.jobs[i].cfg, plant.jobs[i].world)
  }

  /** What no move changes of a job. */
  ghost predicate SameFrozen(t: TrackedJob, u: TrackedJob) {
    && u.cfg == t.cfg && u.assetDocumentId == t.assetDocumentId && u.frequencyScope == t.frequencyScope
    && u.dueOn == t.dueOn && u.world.job.id == t.world.job.id
  }

  lemma HandleKeeps(env: Env, due: DueRule, plant: Plant, a: Arrival)
    requires AllJobsChecked(plant)
    ensures
      var after := Handle(env, due, plant, a);
      && AllJobsChecked(after) && |after.jobs| == |plant.jobs| && |after.rules| == |plant.rules|
      && forall i | 0 <= i < |plant.jobs| :: SameFrozen(plant.jobs[i], after.jobs[i])
  {
    if a.job < |plant.jobs| {
      var t := plant.jobs[a.job];
      NextChecked(env, t.cfg, t.world, a.move);
      VerifiedKept(env, t, a.move);
    }
  }

  lemma {:induction false} RunKeepsFrame(env: Env, due: DueRule, plant: Plant, run: seq<Arrival>)
    requires AllJobsChecked(plant)
    ensures
      var after := RunPlant(env, due, plant, run);
      && AllJobsChecked(after) && |after.jobs| == |plant.jobs| && |after.rules| == |plant.rules|
      && forall i | 0 <= i < |plant.jobs| :: SameFrozen(plant.jobs[i], after.jobs[i])
  {
    if run != [] {
      RunKeepsFrame(env, due, plant, run[..|run| - 1]);
      HandleKeeps(env, due, RunPlant(env, due, plant, run[..|run| - 1]), run[|run| - 1]);
    }
  }

  /**
   A rule moves only with the move that archives a job of its document whose scope holds its frequency, or that
   voids one that is archived.
   */
  lemma RuleMovesOnly(env: Env, due: DueRule, plant: Plant, a: Arrival, i: nat)
    requires AllJobsChecked(plant) && i < |plant.rules|
    requires |Handle(env, due, plant, a).rules| == |plant.rules|
    requires Handle(env, due, plant, a).rules[i] != plant.rules[i]
    ensures a.job < |plant.jobs| && CoversRule(plant.jobs[a.job], plant.rules[i])
    ensures
      var before, after := plant.jobs[a.job].world.job.status, Handle(env, due, plant, a).jobs[a.job].world.job.status;
      (before != Archived && after == Archived) || (before == Archived && after == Voided)
  {
    ArchivesIff(env, plant.jobs[a.job], a.move);
    VoidsArchivedIff(env, plant.jobs[a.job], a.move);
  }

  /** What happens to an ad-hoc job, whose scope is empty, leaves every rule as it was. */
  lemma AdHocMovesNothing(env: Env, due: DueRule, plant: Plant, a: Arrival)
    requires AllJobsChecked(plant) && a.job < |plant.jobs| && plant.jobs[a.job].frequencyScope == []
    ensures Handle(env, due, plant, a).rules == plant.rules
  {
    HandleKeeps(env, due, plant, a);
    forall i: nat | i < |plant.rules| ensures Handle(env, due, plant, a).rules[i] == plant.rules[i] {
      if Handle(env, due, plant, a).rules[i] != plant.rules[i] {
        RuleMovesOnly(env, due, plant, a, i);
      }
    }
  }

  // ---------------------------------------------------------------- the rule's history

  /** What an arrival means to a rule. */
  function EventOf(env: Env, plant: Plant, a: Arrival, rule: Rule): seq<RuleEvent> {
    if a.job >= |plant.jobs| || !CoversRule(plant.jobs[a.job], rule) then []
    else
      var t := plant.jobs[a.job];
      if Archives(env, t, a.move) then [Credited(a.job, StartOf(t, a.move))]
      else if VoidsArchived(env, t, a.move) then [Withdrawn(a.job, t.dueOn)]
      else []
  }

  function EventsOf(env: Env, due: DueRule, plant: Plant, run: seq<Arrival>, rule: Rule): seq<RuleEvent> {
    if run == [] then []
    else
      var init := run[..|run| - 1];
      EventsOf(env, due, plant, init, rule) + EventOf(env, RunPlant(env, due, plant, init), run[|run| - 1], rule)
  }

  /** Every job is new, and has an id of its own. */
  ghost predicate IsFreshPlant(plant: Plant) {
    && (forall i | 0 <= i < |plant.jobs| :: IsFresh(plant.jobs[i].world))
    && forall i, j | 0 <= i < |plant.jobs| && 0 <= j < |plant.jobs| && i != j ::
         plant.jobs[i].world.job.id != plant.jobs[j].world.job.id
  }

  /** The job at place `i` is archived, covers the rule, and was verified at `at`. */
  ghost predicate CreditedNow(jobs: seq<TrackedJob>, rule: Rule, i: nat, at: Instant) {
    && i < |jobs| && CoversRule(jobs[i], rule)
    && jobs[i].world.job.status == Archived && jobs[i].world.job.verifiedAt == Some(at)
  }

  /** The completions that remain in the rule's history are those of the jobs still archived. */
  ghost predicate HistoryFits(jobs: seq<TrackedJob>, rule: Rule, events: seq<RuleEvent>) {
    && (forall c | c in Remaining(events) :: CreditedNow(jobs, rule, c.job, c.at))
    && (forall i: nat, at: Instant | CreditedNow(jobs, rule, i, at) :: Credit(i, at) in Remaining(events))
    && (forall e | e in events :: e.job < |jobs| && jobs[e.job].world.job.status in {Archived, Voided})
    && forall i | 0 <= i < |jobs| && jobs[i].world.job.status == Archived :: jobs[i].world.job.verifiedAt.Some?
  }

  ghost predicate FitsAndFormed(jobs: seq<TrackedJob>, rule: Rule, events: seq<RuleEvent>) {
    HistoryFits(jobs, rule, events) && WellFormed(events)
  }

  lemma WellFormedNext(events: seq<RuleEvent>, e: RuleEvent)
    requires WellFormed(events)
    requires e.Credited? ==> forall d | d in events :: d.job != e.job
    requires e.Withdrawn? ==> IsAmong(Remaining(events), e.job)
    ensures WellFormed(events + [e])
  {
    var all := events + [e];
    forall n: nat | n < |events| ensures all[..n] == events[..n] {
    }
    assert all[..|events|] == events;
    forall m: nat | m < |events| ensures all[m] in events {
    }
  }

  /** The job at place `j` counts as before. */
  lemma QuietFits(jobs: seq<TrackedJob>, rule: Rule, events: seq<RuleEvent>, j: nat, u: TrackedJob)
    requires HistoryFits(jobs, rule, events) && j < |jobs|
    requires CoversRule(u, rule) <==> CoversRule(jobs[j], rule)
    requires CoversRule(u, rule) ==>
      && (u.world.job.status == Archived <==> jobs[j].world.job.status == Archived)
      && u.world.job.verifiedAt == jobs[j].world.job.verifiedAt
    requires jobs[j].world.job.status in {Archived, Voided} ==> u.world.job.status in {Archived, Voided}
    requires u.world.job.status == Archived ==> u.world.job.verifiedAt.Some?
    ensures HistoryFits(jobs[j := u], rule, events)
  {
    var after := jobs[j := u];
    forall i: nat, at: Instant ensures CreditedNow(after, rule, i, at) <==> CreditedNow(jobs, rule, i, at) {
    }
  }

  lemma FitsQuiet(env: Env, plant: Plant, a: Arrival, rule: Rule, events: seq<RuleEvent>)
    requires AllJobsChecked(plant) && FitsAndFormed(plant.jobs, rule, events) && a.job < |plant.jobs|
    requires EventOf(env, plant, a, rule) == []
    ensures FitsAndFormed(plant.jobs[a.job := Advanced(env, plant.jobs[a.job], a.move)], rule, events)
  {
    var t := plant.jobs[a.job];
    ArchivesIff(env, t, a.move);
    VoidsArchivedIff(env, t, a.move);
    VerifiedKept(env, t, a.move);
    TerminalKept(env, t.cfg, t.world, a.move);
    QuietFits(plant.jobs, rule, events, a.job, Advanced(env, t, a.move));
  }

  lemma CreditedRemains(
    jobs: seq<TrackedJob>, rule: Rule, events: seq<RuleEvent>, j: nat, u: TrackedJob, at: Instant)
    requires HistoryFits(jobs, rule, events) && j < |jobs| && jobs[j].world.job.status != Archived
    requires CoversRule(u, rule) && u.world.job.status == Archived && u.world.job.verifiedAt == Some(at)
    ensures
      var after, cs := jobs[j := u], Remaining(events + [Credited(j, at)]);
      && (forall c | c in cs :: CreditedNow(after, rule, c.job, c.at))
      && forall i: nat, t: Instant | CreditedNow(after, rule, i, t) :: Credit(i, t) in cs
  {
    var after := jobs[j := u];
    RemainingNext(events, Credited(j, at));
    forall i: nat, t: Instant
      ensures CreditedNow(after, rule, i, t) <==> CreditedNow(jobs, rule, i, t) || (i == j && t == at)
    {
    }
  }

  /** The job at place `j` is archived now, and counts. */
  lemma CreditedFits(jobs: seq<TrackedJob>, rule: Rule, events: seq<RuleEvent>, j: nat, u: TrackedJob, at: Instant)
    requires HistoryFits(jobs, rule, events) && j < |jobs| && jobs[j].world.job.status != Archived
    requires CoversRule(u, rule) && u.world.job.status == Archived && u.world.job.verifiedAt == Some(at)
    ensures HistoryFits(jobs[j := u], rule, events + [Credited(j, at)])
  {
    CreditedRemains(jobs, rule, events, j, u, at);
  }

  lemma FitsCredited(env: Env, plant: Plant, a: Arrival, rule: Rule, events: seq<RuleEvent>)
    requires AllJobsChecked(plant) && FitsAndFormed(plant.jobs, rule, events) && a.job < |plant.jobs|
    requires CoversRule(plant.jobs[a.job], rule) && Archives(env, plant.jobs[a.job], a.move)
    ensures FitsAndFormed(plant.jobs[a.job := Advanced(env, plant.jobs[a.job], a.move)], rule,
                          events + [Credited(a.job, StartOf(plant.jobs[a.job], a.move))])
  {
    var t := plant.jobs[a.job];
    var at := StartOf(t, a.move);
    ArchivesIff(env, t, a.move);
    TerminalKept(env, t.cfg, t.world, a.move);
    WellFormedNext(events, Credited(a.job, at));
    CreditedFits(plant.jobs, rule, events, a.job, Advanced(env, t, a.move), at);
  }

  lemma OwnCreditRemains(jobs: seq<TrackedJob>, rule: Rule, events: seq<RuleEvent>, j: nat)
    requires HistoryFits(jobs, rule, events) && j < |jobs| && CoversRule(jobs[j], rule)
    requires jobs[j].world.job.status == Archived
    ensures IsAmong(Remaining(events), j)
  {
    var own := Credit(j, jobs[j].world.job.verifiedAt.value);
    assert CreditedNow(jobs, rule, j, own.at);
    assert own in Remaining(events);
    var k :| 0 <= k < |Remaining(events)| && Remaining(events)[k] == own;
  }

  lemma WithdrawnRemains(jobs: seq<TrackedJob>, rule: Rule, events: seq<RuleEvent>, j: nat, u: TrackedJob)
    requires HistoryFits(jobs, rule, events) && j < |jobs| && u.world.job.status == Voided
    ensures
      var after, cs := jobs[j := u], Remaining(events + [Withdrawn(j, u.dueOn)]);
      && (forall c | c in cs :: CreditedNow(after, rule, c.job, c.at))
      && forall i: nat, at: Instant | CreditedNow(after, rule, i, at) :: Credit(i, at) in cs
  {
    var after := jobs[j := u];
    RemainingNext(events, Withdrawn(j, u.dueOn));
    forall c: Credit ensures c in Without(Remaining(events), j) <==> c in Remaining(events) && c.job != j {
      WithoutMember(Remaining(events), j, c);
    }
    forall i: nat, at: Instant ensures CreditedNow(after, rule, i, at) <==> CreditedNow(jobs, rule, i, at) && i != j {
    }
  }

  /** The job at place `j` is no longer archived, and no longer counts. */
  lemma WithdrawnFits(jobs: seq<TrackedJob>, rule: Rule, events: seq<RuleEvent>, j: nat, u: TrackedJob)
    requires HistoryFits(jobs, rule, events) && j < |jobs| && u.world.job.status == Voided
    ensures HistoryFits(jobs[j := u], rule, events + [Withdrawn(j, u.dueOn)])
  {
    WithdrawnRemains(jobs, rule, events, j, u);
  }

  lemma FitsWithdrawn(env: Env, plant: Plant, a: Arrival, rule: Rule, events: seq<RuleEvent>)
    requires AllJobsChecked(plant) && FitsAndFormed(plant.jobs, rule, events) && a.job < |plant.jobs|
    requires CoversRule(plant.jobs[a.job], rule) && VoidsArchived(env, plant.jobs[a.job], a.move)
    ensures FitsAndFormed(plant.jobs[a.job := Advanced(env, plant.jobs[a.job], a.move)], rule,
                          events + [Withdrawn(a.job, plant.jobs[a.job].dueOn)])
  {
    var t := plant.jobs[a.job];
    VoidsArchivedIff(env, t, a.move);
    OwnCreditRemains(plant.jobs, rule, events, a.job);
    WellFormedNext(events, Withdrawn(a.job, t.dueOn));
    WithdrawnFits(plant.jobs, rule, events, a.job, Advanced(env, t, a.move));
  }

  lemma {:induction false} RunFits(env: Env, due: DueRule, plant: Plant, run: seq<Arrival>, rule: Rule)
    requires IsFreshPlant(plant)
    ensures FitsAndFormed(RunPlant(env, due, plant, run).jobs, rule, EventsOf(env, due, plant, run, rule))
  {
    if run != [] {
      var init, a := run[..|run| - 1], run[|run| - 1];
      var before, events := RunPlant(env, due, plant, init), EventsOf(env, due, plant, init, rule);
      RunFits(env, due, plant, init, rule);
      RunKeepsFrame(env, due, plant, init);
      if a.job < |before.jobs| {
        var e := EventOf(env, before, a, rule);
        if e == [] {
          assert events + e == events;
          FitsQuiet(env, before, a, rule, events);
        } else if Archives(env, before.jobs[a.job], a.move) {
          FitsCredited(env, before, a, rule, events);
        } else {
          FitsWithdrawn(env, before, a, rule, events);
        }
      } else {
        assert events + [] == events;
      }
    }
  }

  // ---------------------------------------------------------------- the rule follows its history

  lemma CreditsIff(jobs: seq<TrackedJob>, rule: Rule, excluded: Option<Text>, i: nat, at: Instant)
    requires i < |jobs|
    requires excluded.Some? && jobs[i].world.job.id == excluded.value ==> jobs[i].world.job.status != Archived
    ensures
      var j := History(jobs)[i];
      Credits(j, rule.assetDocumentId, excluded, rule.frequency) && j.verifiedAt.value == at
      <==> CreditedNow(jobs, rule, i, at)
  {
  }

  ghost predicate NotArchived(jobs: seq<TrackedJob>, excluded: Option<Text>) {
    forall i | 0 <= i < |jobs| && excluded == Some(jobs[i].world.job.id) :: jobs[i].world.job.status != Archived
  }

  ghost predicate NoLater(a: Option<Instant>, b: Option<Instant>) {
    a.Some? ==> b.Some? && a.value <= b.value
  }

  lemma FoundIsCredited(jobs: seq<TrackedJob>, rule: Rule, events: seq<RuleEvent>, excluded: Option<Text>)
    requires HistoryFits(jobs, rule, events) && NotArchived(jobs, excluded)
    ensures NoLater(NewestVerified(History(jobs), rule.assetDocumentId, excluded, rule.frequency),
                    Newest(Remaining(events)))
  {
    var past, cs := History(jobs), Remaining(events);
    var found := NewestVerified(past, rule.assetDocumentId, excluded, rule.frequency);
    NewestVerifiedIs(past, rule.assetDocumentId, excluded, rule.frequency);
    NewestIs(cs);
    if found.Some? {
      var i: nat :| i < |past| && Credits(past[i], rule.assetDocumentId, excluded, rule.frequency)
                    && past[i].verifiedAt.value == found.value;
      CreditsIff(jobs, rule, excluded, i, found.value);
      assert CreditedNow(jobs, rule, i, found.value);
      var k :| 0 <= k < |cs| && cs[k] == Credit(i, found.value);
    }
  }

  lemma CreditedIsFound(jobs: seq<TrackedJob>, rule: Rule, events: seq<RuleEvent>, excluded: Option<Text>)
    requires HistoryFits(jobs, rule, events) && NotArchived(jobs, excluded)
    ensures NoLater(Newest(Remaining(events)),
                    NewestVerified(History(jobs), rule.assetDocumentId, excluded, rule.frequency))
  {
    var past, cs := History(jobs), Remaining(events);
    NewestVerifiedIs(past, rule.assetDocumentId, excluded, rule.frequency);
    NewestIs(cs);
    if Newest(cs).Some? {
      var t := Newest(cs).value;
      var k :| 0 <= k < |cs| && cs[k].at == t;
      assert cs[k] in cs;
      assert CreditedNow(jobs, rule, cs[k].job, t);
      CreditsIff(jobs, rule, excluded, cs[k].job, t);
      assert Credits(past[cs[k].job], rule.assetDocumentId, excluded, rule.frequency);
    }
  }

  /** The look-up finds the newest completion that remains in the rule's history. */
  lemma NewestAgrees(jobs: seq<TrackedJob>, rule: Rule, events: seq<RuleEvent>, excluded: Option<Text>)
    requires HistoryFits(jobs, rule, events) && NotArchived(jobs, excluded)
    ensures NewestVerified(History(jobs), rule.assetDocumentId, excluded, rule.frequency) == Newest(Remaining(events))
  {
    FoundIsCredited(jobs, rule, events, excluded);
    CreditedIsFound(jobs, rule, events, excluded);
  }

  /** What an arrival does to one rule. */
  lemma HandledRule(env: Env, due: DueRule, plant: Plant, a: Arrival, i: nat)
    requires i < |plant.rules| && a.job < |plant.jobs|
    ensures
      var t, rule := plant.jobs[a.job], plant.rules[i];
      var after := Handle(env, due, plant, a);
      var event := EventOf(env, plant, a, rule);
      && |after.rules| == |plant.rules|
      && after.rules[i] ==
         if event == [] then rule
         else if event[0].Credited? then Redated(rule, CompletedOn(UtcDate(event[0].at), rule.frequency, due))
         else
           Redated(rule, DatesFrom(NewestVerified(History(after.jobs), rule.assetDocumentId, Some(t.world.job.id),
                                                  rule.frequency),
                                   event[0].dueOn, rule.frequency, due))
  {
  }

  lemma EventsNext(
    env: Env, due: DueRule, plant: Plant, run: seq<Arrival>, rule: Rule, e: RuleEvent)
    requires run != [] && EventOf(env, RunPlant(env, due, plant, run[..|run| - 1]), run[|run| - 1], rule) == [e]
    ensures
      var events := EventsOf(env, due, plant, run, rule);
      events == EventsOf(env, due, plant, run[..|run| - 1], rule) + [e] && events != [] && events[|events| - 1] == e
  {
  }

  lemma EventIgnoresDates(env: Env, plant: Plant, a: Arrival, rule: Rule, dates: RuleDates)
    ensures EventOf(env, plant, a, Redated(rule, dates)) == EventOf(env, plant, a, rule)
  {
  }

  /** Over any run a rule's dates are those of its history. */
  lemma {:induction false} RulesFollowEvents(env: Env, due: DueRule, plant: Plant, run: seq<Arrival>, i: nat)
    requires IsFreshPlant(plant) && i < |plant.rules|
    ensures |RunPlant(env, due, plant, run).rules| == |plant.rules|
    ensures
      var rule := plant.rules[i];
      RunPlant(env, due, plant, run).rules[i]
      == Redated(rule, DatesAfter(rule, EventsOf(env, due, plant, run, rule), due))
  {
    if run != [] {
      var init, a := run[..|run| - 1], run[|run| - 1];
      var rule, before := plant.rules[i], RunPlant(env, due, plant, init);
      var events := EventsOf(env, due, plant, init, rule);
      RulesFollowEvents(env, due, plant, init, i);
      EventIgnoresDates(env, before, a, rule, DatesAfter(rule, events, due));
      if a.job >= |before.jobs| {
        assert events + [] == events;
      } else {
        HandledRule(env, due, before, a, i);
        var e := EventOf(env, before, a, rule);
        if e == [] {
          assert events + e == events;
        } else {
          assert e == [e[0]];
          EventsNext(env, due, plant, run, rule, e[0]);
          if e[0].Withdrawn? {
            WithdrawnDates(env, due, plant, run, rule);
          }
        }
      }
    }
  }

  /** After a withdrawal the look-up finds the newest completion of the longer history. */
  lemma WithdrawnDates(env: Env, due: DueRule, plant: Plant, run: seq<Arrival>, rule: Rule)
    requires IsFreshPlant(plant) && run != []
    requires
      var before := RunPlant(env, due, plant, run[..|run| - 1]);
      var a := run[|run| - 1];
      a.job < |before.jobs| && VoidsArchived(env, before.jobs[a.job], a.move)
    ensures
      var before, after := RunPlant(env, due, plant, run[..|run| - 1]), RunPlant(env, due, plant, run);
      NewestVerified(History(after.jobs), rule.assetDocumentId, Some(before.jobs[run[|run| - 1].job].world.job.id),
                     rule.frequency)
      == Newest(Remaining(EventsOf(env, due, plant, run, rule)))
  {
    var init, a := run[..|run| - 1], run[|run| - 1];
    var before, after := RunPlant(env, due, plant, init), RunPlant(env, due, plant, run);
    RunFits(env, due, plant, run, rule);
    RunKeepsFrame(env, due, plant, init);
    RunKeepsFrame(env, due, plant, run);
    VoidsArchivedIff(env, before.jobs[a.job], a.move);
    forall i | 0 <= i < |after.jobs| && after.jobs[i].world.job.id == before.jobs[a.job].world.job.id
      ensures after.jobs[i].world.job.status != Archived
    {
      assert i == a.job;
    }
    NewestAgrees(after.jobs, rule, EventsOf(env, due, plant, run, rule), Some(before.jobs[a.job].world.job.id));
  }
}

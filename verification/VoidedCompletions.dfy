/**
 Runs from new jobs in which voiding an archived job does not put the schedule back to where it would be had
 the job never been completed.
 */
module VoidedCompletions {
  import opened Wrappers
  import opened Traces
  import opened Calendar
  import opened FrequencyCascade
  import opened CompletionCascade
  import opened ScheduleHistory
  import opened CanonicalJobRecord
  import opened JobProtocol
  import opened SplitRuns
  import opened LawfulRuns
  import opened CompletionRuns
  import opened PlantSchedule

  // ---------------------------------------------------------------- the moves of one job as arrivals

  function On(job: nat, moves: seq<Move>): (run: seq<Arrival>)
    ensures |run| == |moves|
  {
    seq(|moves|, i requires 0 <= i < |moves| => Arrival(job, moves[i]))
  }

  lemma OnNext(job: nat, moves: seq<Move>, m: Move)
    ensures On(job, moves + [m]) == On(job, moves) + [Arrival(job, m)]
  {
  }

  lemma Associates(x: seq<RuleEvent>, y: seq<RuleEvent>, z: seq<RuleEvent>)
    ensures (x + y) + z == x + (y + z)
  {
  }

  /** One run after the other, and their histories together. */
  lemma RunConcat(env: Env, due: DueRule, plant: Plant, a: seq<Arrival>, b: seq<Arrival>, rule: Rule)
    ensures RunPlant(env, due, plant, a + b) == RunPlant(env, due, RunPlant(env, due, plant, a), b)
    ensures EventsOf(env, due, plant, a + b, rule)
            == EventsOf(env, due, plant, a, rule) + EventsOf(env, due, RunPlant(env, due, plant, a), b, rule)
  {
    AsTrace(env, due, plant, a, rule);
    AsTrace(env, due, plant, a + b, rule);
    AsTrace(env, due, RunPlant(env, due, plant, a), b, rule);
    RunAllConcat(HandleBy(env, due), plant, a, b);
    EmittedConcat(HandleBy(env, due), EventBy(env, rule), plant, a, b);
  }

  /** The job at place `j` has done the moves, and no other job has done anything. */
  ghost predicate Did(env: Env, before: Plant, after: Plant, j: nat, moves: seq<Move>) {
    && j < |before.jobs| && SameOthers(before.jobs, after.jobs, j)
    && after.jobs[j] == before.jobs[j].(world := RunMoves(env, before.jobs[j].cfg, before.jobs[j].world, moves))
  }

  lemma {:induction false} OnDoes(env: Env, due: DueRule, plant: Plant, j: nat, moves: seq<Move>)
    requires j < |plant.jobs|
    ensures Did(env, plant, RunPlant(env, due, plant, On(j, moves)), j, moves)
  {
    if moves != [] {
      var init, m := moves[..|moves| - 1], moves[|moves| - 1];
      OnDoes(env, due, plant, j, init);
      assert moves == init + [m];
      OnNext(j, init, m);
      OneMoreArrival(env, due, plant, On(j, init), Arrival(j, m), AnyRule());
    }
  }

  function AnyRule(): Rule {
    Rule([], M1, 1, None, 0)
  }

  lemma OnEventsNext(env: Env, due: DueRule, plant: Plant, j: nat, moves: seq<Move>, m: Move, rule: Rule)
    requires AllJobsChecked(plant) && j < |plant.jobs| && CoversRule(plant.jobs[j], rule)
    ensures
      var t := plant.jobs[j];
      var w := RunMoves(env, t.cfg, t.world, moves);
      var after := Next(env, t.cfg, w, m).job;
      EventsOf(env, due, plant, On(j, moves + [m]), rule) == EventsOf(env, due, plant, On(j, moves), rule) +
        if w.job.status != Archived && after.status == Archived && after.verifiedAt.Some?
        then [Credited(j, after.verifiedAt.value)]
        else if w.job.status == Archived && after.status == Voided then [Withdrawn(j, t.dueOn)]
        else []
  {
    var t := plant.jobs[j];
    OnNext(j, moves, m);
    OnDoes(env, due, plant, j, moves);
    OneMoreArrival(env, due, plant, On(j, moves), Arrival(j, m), rule);
    RunChecked(env, t.cfg, t.world, moves);
    var now := RunPlant(env, due, plant, On(j, moves)).jobs[j];
    ArchivesIff(env, now, m);
    VoidsArchivedIff(env, now, m);
  }

  lemma {:induction false} QuietWhileOpen(env: Env, due: DueRule, plant: Plant, j: nat, moves: seq<Move>, rule: Rule)
    requires AllJobsChecked(plant) && j < |plant.jobs| && CoversRule(plant.jobs[j], rule)
    requires RunMoves(env, plant.jobs[j].cfg, plant.jobs[j].world, moves).job.status !in {Archived, Voided}
    ensures EventsOf(env, due, plant, On(j, moves), rule) == []
  {
    if moves != [] {
      var init, m := moves[..|moves| - 1], moves[|moves| - 1];
      var t := plant.jobs[j];
      assert moves == init + [m];
      RunChecked(env, t.cfg, t.world, init);
      TerminalKept(env, t.cfg, RunMoves(env, t.cfg, t.world, init), m);
      QuietWhileOpen(env, due, plant, j, init, rule);
      OnEventsNext(env, due, plant, j, init, m, rule);
    }
  }

  // ---------------------------------------------------------------- one job archived, one voided

  function Life(j: nat, c: JobProtocol.Capture, s: JobProtocol.Request, v: JobProtocol.Request): seq<Arrival> {
    On(j, LifeBegun(c, s, v) + [End(0)])
  }

  function Voiding(j: nat, d: JobProtocol.Request): seq<Arrival> {
    On(j, [Begin(0, d)] + [End(0)])
  }

  ghost predicate Ready(t: TrackedJob, c: JobProtocol.Capture, s: JobProtocol.Request, v: JobProtocol.Request) {
    LifeRequests(t.cfg, c, s, v) && IsFresh(t.world) && t.world.job.status == Assigned && Plain(t.world.job)
  }

  /** At rest after archiving, and able to be voided. */
  ghost predicate AtRest(t: TrackedJob) {
    t.world.pending == map[] && t.world.job.status == Archived && Plain(t.world.job)
  }

  lemma LifeArchives(
    env: Env, due: DueRule, plant: Plant, j: nat, c: JobProtocol.Capture, s: JobProtocol.Request,
    v: JobProtocol.Request, rule: Rule)
    requires HashesPlainRecords(env) && AllJobsChecked(plant)
    requires j < |plant.jobs| && CoversRule(plant.jobs[j], rule) && Ready(plant.jobs[j], c, s, v)
    ensures
      var after := RunPlant(env, due, plant, Life(j, c, s, v));
      && EventsOf(env, due, plant, Life(j, c, s, v), rule) == [Credited(j, v.now)]
      && SameOthers(plant.jobs, after.jobs, j) && AtRest(after.jobs[j]) && SameFrozen(plant.jobs[j], after.jobs[j])
      && AllJobsChecked(after)
  {
    var t := plant.jobs[j];
    var snap, archived := LifeReaches(env, t.cfg, t.world, c, s, v);
    var begun := LifeBegun(c, s, v);
    QuietWhileOpen(env, due, plant, j, begun, rule);
    RunNext(env, t.cfg, t.world, begun, End(0));
    OnEventsNext(env, due, plant, j, begun, End(0), rule);
    OnDoes(env, due, plant, j, begun + [End(0)]);
    RunKeepsFrame(env, due, plant, Life(j, c, s, v));
  }

  lemma VoidingWithdraws(env: Env, due: DueRule, plant: Plant, j: nat, d: JobProtocol.Request, rule: Rule)
    requires HashesPlainRecords(env) && AllJobsChecked(plant)
    requires j < |plant.jobs| && CoversRule(plant.jobs[j], rule) && AtRest(plant.jobs[j]) && d.Void? && d.isAdmin
    ensures
      var after := RunPlant(env, due, plant, Voiding(j, d));
      && EventsOf(env, due, plant, Voiding(j, d), rule) == [Withdrawn(j, plant.jobs[j].dueOn)]
      && SameOthers(plant.jobs, after.jobs, j) && SameFrozen(plant.jobs[j], after.jobs[j]) && AllJobsChecked(after)
  {
    var t := plant.jobs[j];
    var after := VoidsAnArchived(env, t.cfg, t.world.job, d);
    BeginEnd(env, t.cfg, t.world, 0, d, after);
    RunNext(env, t.cfg, t.world, [], Begin(0, d));
    RunNext(env, t.cfg, t.world, [Begin(0, d)], End(0));
    assert [] + [Begin(0, d)] == [Begin(0, d)];
    OnEventsNext(env, due, plant, j, [], Begin(0, d), rule);
    OnEventsNext(env, due, plant, j, [Begin(0, d)], End(0), rule);
    assert On(j, []) == [];
    OnDoes(env, due, plant, j, [Begin(0, d)] + [End(0)]);
    RunKeepsFrame(env, due, plant, Voiding(j, d));
  }

  // ---------------------------------------------------------------- a completion day that is cleared

  lemma LifeThenVoiding(
    env: Env, due: DueRule, plant: Plant, j: nat, c: JobProtocol.Capture, s: JobProtocol.Request,
    v: JobProtocol.Request, d: JobProtocol.Request, rule: Rule)
    requires HashesPlainRecords(env) && AllJobsChecked(plant) && j < |plant.jobs|
    requires CoversRule(plant.jobs[j], rule) && Ready(plant.jobs[j], c, s, v) && d.Void? && d.isAdmin
    ensures EventsOf(env, due, plant, Life(j, c, s, v) + Voiding(j, d), rule)
            == [Credited(j, v.now)] + [Withdrawn(j, plant.jobs[j].dueOn)]
  {
    LifeArchives(env, due, plant, j, c, s, v, rule);
    var after := RunPlant(env, due, plant, Life(j, c, s, v));
    VoidingWithdraws(env, due, after, j, d, rule);
    RunConcat(env, due, plant, Life(j, c, s, v), Voiding(j, d), rule);
  }

  /**
   One job, archived and voided: the rule it covers is left uncompleted and due when the job was, whatever it
   stood at before the job.
   */
  lemma VoidClearsRule(
    env: Env, due: DueRule, plant: Plant, i: nat, j: nat, c: JobProtocol.Capture, s: JobProtocol.Request,
    v: JobProtocol.Request, d: JobProtocol.Request)
    requires HashesPlainRecords(env) && IsFreshPlant(plant) && i < |plant.rules| && j < |plant.jobs|
    requires CoversRule(plant.jobs[j], plant.rules[i]) && Ready(plant.jobs[j], c, s, v) && d.Void? && d.isAdmin
    ensures
      var run := Life(j, c, s, v) + Voiding(j, d);
      && |RunPlant(env, due, plant, run).rules| == |plant.rules|
      && Dates(RunPlant(env, due, plant, run).rules[i]) == RuleDates(None, plant.jobs[j].dueOn)
      && WithoutJob(run, j) == []
  {
    var run := Life(j, c, s, v) + Voiding(j, d);
    LifeThenVoiding(env, due, plant, j, c, s, v, d, plant.rules[i]);
    RulesFollowEvents(env, due, plant, run, i);
    OneCreditWithdrawn(plant.rules[i], due, j, v.now, plant.jobs[j].dueOn);
    WithoutOwn(run, j);
  }

  lemma OneCreditWithdrawn(rule: Rule, due: DueRule, j: nat, at: Instant, dueOn: Day)
    ensures DatesAfter(rule, [Credited(j, at)] + [Withdrawn(j, dueOn)], due) == RuleDates(None, dueOn)
  {
    RemainingNext([], Credited(j, at));
    RemainingNext([Credited(j, at)], Withdrawn(j, dueOn));
    assert [] + [Credited(j, at)] == [Credited(j, at)];
    assert Remaining([Credited(j, at)]) == [Credit(j, at)];
    assert [Credit(j, at)][..0] == [];
  }

  lemma {:induction false} WithoutOwn(run: seq<Arrival>, j: nat)
    requires forall k | 0 <= k < |run| :: run[k].job == j
    ensures WithoutJob(run, j) == []
  {
    if run != [] {
      WithoutOwn(run[..|run| - 1], j);
    }
  }

  // ---------------------------------------------------------------- two jobs, both voided

  /** Two jobs archived one after the other, and voided in the same order. */
  function TwoLives(
    j: nat, k: nat, c: JobProtocol.Capture, s: JobProtocol.Request, v: JobProtocol.Request, d: JobProtocol.Request)
    : seq<Arrival>
  {
    (Life(j, c, s, v) + Life(k, c, s, v)) + (Voiding(j, d) + Voiding(k, d))
  }

  ghost predicate TwoReady(
    plant: Plant, rule: Rule, j: nat, k: nat, c: JobProtocol.Capture, s: JobProtocol.Request, v: JobProtocol.Request)
  {
    && j < |plant.jobs| && k < |plant.jobs| && j != k
    && CoversRule(plant.jobs[j], rule) && CoversRule(plant.jobs[k], rule)
    && Ready(plant.jobs[j], c, s, v) && Ready(plant.jobs[k], c, s, v)
  }

  lemma TwoLivesCredit(
    env: Env, due: DueRule, plant: Plant, rule: Rule, j: nat, k: nat, c: JobProtocol.Capture,
    s: JobProtocol.Request, v: JobProtocol.Request)
    requires HashesPlainRecords(env) && AllJobsChecked(plant) && TwoReady(plant, rule, j, k, c, s, v)
    ensures
      var lives := Life(j, c, s, v) + Life(k, c, s, v);
      var after := RunPlant(env, due, plant, lives);
      && EventsOf(env, due, plant, lives, rule) == [Credited(j, v.now)] + [Credited(k, v.now)]
      && |after.jobs| == |plant.jobs| && AtRest(after.jobs[j]) && AtRest(after.jobs[k])
      && SameFrozen(plant.jobs[j], after.jobs[j]) && SameFrozen(plant.jobs[k], after.jobs[k])
      && AllJobsChecked(after)
  {
    LifeArchives(env, due, plant, j, c, s, v, rule);
    var middle := RunPlant(env, due, plant, Life(j, c, s, v));
    LifeArchives(env, due, middle, k, c, s, v, rule);
    RunConcat(env, due, plant, Life(j, c, s, v), Life(k, c, s, v), rule);
  }

  lemma TwoVoidingsWithdraw(
    env: Env, due: DueRule, plant: Plant, rule: Rule, j: nat, k: nat, d: JobProtocol.Request)
    requires HashesPlainRecords(env) && AllJobsChecked(plant) && j < |plant.jobs| && k < |plant.jobs| && j != k
    requires CoversRule(plant.jobs[j], rule) && CoversRule(plant.jobs[k], rule)
    requires AtRest(plant.jobs[j]) && AtRest(plant.jobs[k]) && d.Void? && d.isAdmin
    ensures EventsOf(env, due, plant, Voiding(j, d) + Voiding(k, d), rule)
            == [Withdrawn(j, plant.jobs[j].dueOn)] + [Withdrawn(k, plant.jobs[k].dueOn)]
  {
    VoidingWithdraws(env, due, plant, j, d, rule);
    VoidingWithdraws(env, due, RunPlant(env, due, plant, Voiding(j, d)), k, d, rule);
    RunConcat(env, due, plant, Voiding(j, d), Voiding(k, d), rule);
  }

  lemma TwoCredits(j: nat, k: nat, at: Instant)
    requires j != k
    ensures Remaining([Credited(j, at)] + [Credited(k, at)]) == [Credit(j, at), Credit(k, at)]
    ensures Without([Credit(j, at), Credit(k, at)], j) == [Credit(k, at)] && Without([Credit(k, at)], k) == []
  {
    RemainingNext([], Credited(j, at));
    assert [] + [Credited(j, at)] == [Credited(j, at)];
    RemainingNext([Credited(j, at)], Credited(k, at));
    assert [] + [Credit(j, at)] == [Credit(j, at)] && [] + [Credit(k, at)] == [Credit(k, at)];
    assert [Credit(j, at)] + [Credit(k, at)] == [Credit(j, at), Credit(k, at)];
    WithoutLast([], Credit(j, at), j);
    WithoutLast([Credit(j, at)], Credit(k, at), j);
    WithoutLast([], Credit(k, at), k);
  }

  lemma BothWithdrawn(rule: Rule, due: DueRule, j: nat, k: nat, at: Instant, dueJ: Day, dueK: Day)
    requires j != k
    ensures
      DatesAfter(rule, ([Credited(j, at)] + [Credited(k, at)]) + ([Withdrawn(j, dueJ)] + [Withdrawn(k, dueK)]), due)
      == RuleDates(None, dueK)
  {
    var two := [Credited(j, at)] + [Credited(k, at)];
    var three := two + [Withdrawn(j, dueJ)];
    TwoCredits(j, k, at);
    RemainingNext(two, Withdrawn(j, dueJ));
    RemainingNext(three, Withdrawn(k, dueK));
    Associates(two, [Withdrawn(j, dueJ)], [Withdrawn(k, dueK)]);
    NothingLeft(rule, three, Withdrawn(k, dueK), due);
  }

  lemma NothingLeft(rule: Rule, events: seq<RuleEvent>, last: RuleEvent, due: DueRule)
    requires last.Withdrawn? && Remaining(events + [last]) == []
    ensures DatesAfter(rule, events + [last], due) == RuleDates(None, last.dueOn)
  {
    assert (events + [last])[|events|] == last;
  }

  /**
   Two jobs archived and both voided: the rule is left due when the job voided last was, and so not where it
   started, nor where the first of them was due.
   */
  lemma LastVoidDecides(
    env: Env, due: DueRule, plant: Plant, i: nat, j: nat, k: nat, c: JobProtocol.Capture, s: JobProtocol.Request,
    v: JobProtocol.Request, d: JobProtocol.Request)
    requires HashesPlainRecords(env) && IsFreshPlant(plant) && i < |plant.rules|
    requires TwoReady(plant, plant.rules[i], j, k, c, s, v) && d.Void? && d.isAdmin
    ensures
      var after := RunPlant(env, due, plant, TwoLives(j, k, c, s, v, d));
      |after.rules| == |plant.rules| && Dates(after.rules[i]) == RuleDates(None, plant.jobs[k].dueOn)
  {
    var rule := plant.rules[i];
    var lives := Life(j, c, s, v) + Life(k, c, s, v);
    TwoLivesCredit(env, due, plant, rule, j, k, c, s, v);
    TwoVoidingsWithdraw(env, due, RunPlant(env, due, plant, lives), rule, j, k, d);
    RunConcat(env, due, plant, lives, Voiding(j, d) + Voiding(k, d), rule);
    RulesFollowEvents(env, due, plant, TwoLives(j, k, c, s, v, d), i);
    BothWithdrawn(rule, due, j, k, v.now, plant.jobs[j].dueOn, plant.jobs[k].dueOn);
  }
}

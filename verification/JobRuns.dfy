/**
 Whole runs of atomic requests with a strictly increasing clock: who signed an archived record, and
 that the newest signature is always of the record as it stands.
 */
module JobRuns {
  import opened Wrappers
  import opened Texts
  import opened CanonicalJobRecord
  import opened JobProtocol

  datatype Event = Request(req: JobProtocol.Request) | Capture(capture: JobProtocol.Capture)

  function Now(e: Event): Instant {
    match e
    case Request(r) => r.now
    case Capture(c) => c.now
  }

  /** One request, read and commit together; a refused request leaves the job as it was. */
  function Execute(env: Env, cfg: Config, job: Job, e: Event): Job {
    var outcome :=
      match e
      case Capture(c) => CaptureResult(cfg, job, c)
      case Request(r) =>
        match Precheck(cfg, job, r)
        case Some(p) => Err(p)
        case None => Commit(env, cfg, job, job, r);
    if outcome.Ok? then outcome.value else job
  }

  function Run(env: Env, cfg: Config, job: Job, events: seq<Event>): Job {
    if events == [] then job
    else Execute(env, cfg, Run(env, cfg, job, events[..|events| - 1]), events[|events| - 1])
  }

  ghost predicate ClockIncreases(events: seq<Event>) {
    forall i, j | 0 <= i < j < |events| :: Now(events[i]) < Now(events[j])
  }

  /** A job as the scheduler or an ad-hoc request creates it. */
  ghost predicate IsNew(job: Job) {
    && (job.status == Scheduled || job.status == Assigned)
    && job.currentStageOrdinal == None && job.submittedBy == None && job.submittedAt == None
    && job.steps == []
  }

  // ---------------------------------------------------------------- the current submission cycle

  /** The steps after the last returned or recalled one. */
  function Cycle(steps: seq<Step>): seq<Step> {
    if steps == [] || IsBreak(steps[|steps| - 1]) then []
    else Cycle(steps[..|steps| - 1]) + [steps[|steps| - 1]]
  }

  lemma {:induction false} CycleIsSuffix(steps: seq<Step>)
    ensures |Cycle(steps)| <= |steps| && Cycle(steps) == steps[|steps| - |Cycle(steps)|..]
  {
    if steps != [] && !IsBreak(steps[|steps| - 1]) {
      CycleIsSuffix(steps[..|steps| - 1]);
    }
  }

  /** One submission at stage 0, then one verification per stage, in order. */
  ghost predicate SignedThrough(cycle: seq<Step>, stage: int) {
    && |cycle| == stage + 1 >= 1
    && cycle[0].action == StepSubmitted && cycle[0].stageOrdinal == 0
    && forall i | 1 <= i <= stage :: cycle[i].action == StepVerified && cycle[i].stageOrdinal == i
  }

  /** The signatures come from different people, the submitter being the first. */
  ghost predicate DifferentPeople(cycle: seq<Step>, submitter: Option<UserId>) {
    && cycle != [] && submitter == Some(cycle[0].actorId)
    && forall i, j | 0 <= i < j < |cycle| :: cycle[i].actorId != cycle[j].actorId
  }

  ghost predicate TimesAscend(steps: seq<Step>, clock: Instant) {
    && (forall i, j | 0 <= i < j < |steps| :: steps[i].actedAt < steps[j].actedAt)
    && (forall i | 0 <= i < |steps| :: steps[i].actedAt <= clock)
  }

  /** What every reachable job's status says about its steps. */
  ghost predicate Shape(cfg: Config, job: Job, clock: Instant) {
    && TimesAscend(job.steps, clock)
    && match job.status
       case Scheduled => Cycle(job.steps) == []
       case Assigned => Cycle(job.steps) == []
       case InProgress => Cycle(job.steps) == []
       case Submitted =>
         && job.currentStageOrdinal.Some?
         && 1 <= job.currentStageOrdinal.value <= cfg.stageCount
         && SignedThrough(Cycle(job.steps), job.currentStageOrdinal.value - 1)
         && DifferentPeople(Cycle(job.steps), job.submittedBy)
       case Verified => false
       case Archived =>
         && SignedThrough(Cycle(job.steps), cfg.stageCount)
         && DifferentPeople(Cycle(job.steps), job.submittedBy)
       case Voided => job.steps != []
  }

  /** The newest step's content hash is the hash of the record rebuilt from the row. */
  ghost predicate NewestSigned(env: Env, job: Job) {
    && job.steps != []
    && env.contentHash(CurrentRecord(job)) == Some(job.steps[|job.steps| - 1].contentHash)
  }

  /** The statuses in which the record can no longer be edited. */
  ghost predicate Frozen(s: JobStatus) {
    s == Submitted || s == Archived || s == Voided
  }

  ghost predicate Inv(env: Env, cfg: Config, job: Job, clock: Instant) {
    Shape(cfg, job, clock) && (Frozen(job.status) ==> NewestSigned(env, job))
  }

  // ---------------------------------------------------------------- the service's cycle check

  lemma {:induction false} LastBreakBound(steps: seq<Step>, clock: Instant)
    requires TimesAscend(steps, clock)
    ensures LastCycleBreak(steps).Some? ==> steps != [] && LastCycleBreak(steps).value <= steps[|steps| - 1].actedAt
  {
    if steps != [] {
      LastBreakBound(steps[..|steps| - 1], clock);
    }
  }

  /** With ascending times, comparing against the last break's time selects the current cycle. */
  lemma {:induction false} AfterLastBreakIff(steps: seq<Step>, clock: Instant, i: nat)
    requires TimesAscend(steps, clock) && i < |steps|
    ensures (LastCycleBreak(steps).None? || steps[i].actedAt > LastCycleBreak(steps).value)
            <==> i >= |steps| - |Cycle(steps)|
  {
    var n := |steps| - 1;
    var earlier := steps[..n];
    LastBreakBound(earlier, clock);
    CycleIsSuffix(earlier);
    if IsBreak(steps[n]) {
      assert LastCycleBreak(steps) == Some(steps[n].actedAt);
    } else if i < n {
      AfterLastBreakIff(earlier, clock, i);
    }
  }

  /** The actor has a verified step in the current cycle. */
  ghost predicate VerifiedIn(cycle: seq<Step>, actor: UserId) {
    exists i | 0 <= i < |cycle| :: cycle[i].action == StepVerified && cycle[i].actorId == actor
  }

  lemma VerifiedByTimes(steps: seq<Step>, clock: Instant, actor: UserId, i: nat)
    requires TimesAscend(steps, clock) && AlreadyVerifiedThisCycle(steps, actor)
    requires i < |steps| && steps[i].action == StepVerified && steps[i].actorId == actor
    requires LastCycleBreak(steps).None? || steps[i].actedAt > LastCycleBreak(steps).value
    ensures VerifiedIn(Cycle(steps), actor)
  {
    AfterLastBreakIff(steps, clock, i);
    CycleIsSuffix(steps);
    var cycle := Cycle(steps);
    assert cycle[i - (|steps| - |cycle|)] == steps[i];
  }

  lemma VerifiedByPosition(steps: seq<Step>, clock: Instant, actor: UserId, j: nat)
    requires TimesAscend(steps, clock) && j < |Cycle(steps)|
    requires Cycle(steps)[j].action == StepVerified && Cycle(steps)[j].actorId == actor
    ensures AlreadyVerifiedThisCycle(steps, actor)
  {
    CycleIsSuffix(steps);
    var i := |steps| - |Cycle(steps)| + j;
    assert steps[i] == Cycle(steps)[j];
    AfterLastBreakIff(steps, clock, i);
  }

  /** The service's check by times is a check of the current cycle. */
  lemma AlreadyVerifiedIff(steps: seq<Step>, clock: Instant, actor: UserId)
    requires TimesAscend(steps, clock)
    ensures AlreadyVerifiedThisCycle(steps, actor) <==> VerifiedIn(Cycle(steps), actor)
  {
    if AlreadyVerifiedThisCycle(steps, actor) {
      var lastBreak := LastCycleBreak(steps);
      var i :| 0 <= i < |steps| && steps[i].action == StepVerified && steps[i].actorId == actor
            && (lastBreak.None? || steps[i].actedAt > lastBreak.value);
      VerifiedByTimes(steps, clock, actor, i);
    } else if VerifiedIn(Cycle(steps), actor) {
      var cycle := Cycle(steps);
      var j :| 0 <= j < |cycle| && cycle[j].action == StepVerified && cycle[j].actorId == actor;
      VerifiedByPosition(steps, clock, actor, j);
    }
  }

  lemma CycleAppend(steps: seq<Step>, s: Step)
    ensures Cycle(steps + [s]) == if IsBreak(s) then [] else Cycle(steps) + [s]
  {
    assert (steps + [s])[..|steps|] == steps;
  }

  // ---------------------------------------------------------------- each request keeps the invariant

  lemma AppendTimes(steps: seq<Step>, s: Step, clock: Instant)
    requires TimesAscend(steps, clock) && s.actedAt > clock
    ensures TimesAscend(steps + [s], s.actedAt)
  {
  }

  /** The same step once its hash and signature are filled in. */
  ghost predicate Completes(step: Step, t: Step) {
    t == step.(contentHash := t.contentHash, signature := t.signature)
  }

  lemma SubmitShape(cfg: Config, job: Job, req: JobProtocol.Request, clock: Instant, u: Update, t: Step)
    requires Shape(cfg, job, clock) && req.Submit? && req.now > clock && cfg.stageCount >= 1
    requires GuardedUpdate(cfg, job, job, req) == Ok(u) && Completes(u.step, t)
    ensures Shape(cfg, u.row.(steps := job.steps + [t]), req.now)
  {
    AppendTimes(job.steps, t, clock);
    CycleAppend(job.steps, t);
    assert Cycle(job.steps + [t]) == [t];
  }

  lemma VerifyShape(cfg: Config, job: Job, req: JobProtocol.Request, clock: Instant, u: Update, t: Step)
    requires Shape(cfg, job, clock) && req.Verify? && req.now > clock && Precheck(cfg, job, req).None?
    requires GuardedUpdate(cfg, job, job, req) == Ok(u) && Completes(u.step, t)
    ensures Shape(cfg, u.row.(steps := job.steps + [t]), req.now)
  {
    var cycle := Cycle(job.steps);
    AppendTimes(job.steps, t, clock);
    CycleAppend(job.steps, t);
    AlreadyVerifiedIff(job.steps, clock, req.actor);
    NewSigner(cycle, job.currentStageOrdinal.value - 1, job.submittedBy, t);
  }

  /** A verification by someone who has not signed this cycle extends it by one stage. */
  lemma NewSigner(cycle: seq<Step>, stage: int, submitter: Option<UserId>, t: Step)
    requires SignedThrough(cycle, stage) && DifferentPeople(cycle, submitter)
    requires t.action == StepVerified && t.stageOrdinal == stage + 1 && submitter != Some(t.actorId)
    requires !VerifiedIn(cycle, t.actorId)
    ensures SignedThrough(cycle + [t], stage + 1) && DifferentPeople(cycle + [t], submitter)
  {
    var extended := cycle + [t];
    forall i | 1 <= i <= stage + 1 ensures extended[i].action == StepVerified && extended[i].stageOrdinal == i {
    }
    forall i | 0 <= i < |cycle| ensures cycle[i].actorId != t.actorId {
    }
  }

  lemma BreakShape(cfg: Config, job: Job, req: JobProtocol.Request, clock: Instant, u: Update, t: Step)
    requires Shape(cfg, job, clock) && (req.Return? || req.Recall? || req.Void?) && req.now > clock
    requires GuardedUpdate(cfg, job, job, req) == Ok(u) && Completes(u.step, t)
    ensures Shape(cfg, u.row.(steps := job.steps + [t]), req.now)
  {
    AppendTimes(job.steps, t, clock);
    CycleAppend(job.steps, t);
  }

  lemma SignedShape(cfg: Config, job: Job, req: JobProtocol.Request, clock: Instant, u: Update, t: Step)
    requires Shape(cfg, job, clock) && req.now > clock && cfg.stageCount >= 1 && Precheck(cfg, job, req).None?
    requires GuardedUpdate(cfg, job, job, req) == Ok(u) && u.Signed? && Completes(u.step, t)
    ensures u.row.steps == job.steps && Shape(cfg, u.row.(steps := job.steps + [t]), req.now)
  {
    match req
    case Submit(_, _, _, _) => SubmitShape(cfg, job, req, clock, u, t);
    case Verify(_, _, _, _, _, _, _) => VerifyShape(cfg, job, req, clock, u, t);
    case Return(_, _, _, _) => BreakShape(cfg, job, req, clock, u, t);
    case Recall(_, _, _) => BreakShape(cfg, job, req, clock, u, t);
    case Void(_, _, _, _, _, _) => BreakShape(cfg, job, req, clock, u, t);
  }

  /** The hash and signature columns are not part of what is signed. */
  lemma BoundAppend(steps: seq<Step>, s: Step, t: Step)
    requires Completes(s, t)
    ensures Map(BoundStep(), steps + [s]) == Map(BoundStep(), steps + [t])
  {
    var a, b := Map(BoundStep(), steps + [s]), Map(BoundStep(), steps + [t]);
    forall i | 0 <= i < |a| ensures a[i] == b[i] {
    }
  }

  /** What is signed is the row as updated, if the data read is still the row's data. */
  lemma SignedIsUpdatedRow(cfg: Config, job: Job, req: JobProtocol.Request, u: Update, t: Step)
    requires GuardedUpdate(cfg, job, job, req) == Ok(u) && u.Signed? && Completes(u.step, t)
    ensures RecordOf(job, u.status, u.submitter, u.row.steps + [u.step])
            == CurrentRecord(u.row.(steps := u.row.steps + [t]))
  {
    BoundAppend(u.row.steps, u.step, t);
  }

  lemma SignedKeeps(env: Env, cfg: Config, job: Job, req: JobProtocol.Request, clock: Instant, u: Update, d: Digest)
    requires Shape(cfg, job, clock) && req.now > clock && cfg.stageCount >= 1 && Precheck(cfg, job, req).None?
    requires GuardedUpdate(cfg, job, job, req) == Ok(u) && u.Signed?
    requires env.contentHash(RecordOf(job, u.status, u.submitter, u.row.steps + [u.step])) == Some(d)
    ensures Inv(env, cfg, Append(env, u.row, u.step, d), req.now)
  {
    var t := u.step.(contentHash := d, signature := env.sign(d));
    SignedShape(cfg, job, req, clock, u, t);
    SignedIsUpdatedRow(cfg, job, req, u, t);
  }

  ghost predicate Editable(s: JobStatus) {
    s == Scheduled || s == Assigned || s == InProgress
  }

  /** Editing a job outside a submission keeps the invariant: no step is added. */
  lemma EditKeeps(env: Env, cfg: Config, job: Job, row: Job, clock: Instant, now: Instant)
    requires Inv(env, cfg, job, clock) && now > clock
    requires row.steps == job.steps && Editable(job.status) && Editable(row.status)
    ensures Inv(env, cfg, row, now)
  {
  }

  lemma AssignEdits(cfg: Config, job: Job, req: JobProtocol.Request, u: Update)
    requires Precheck(cfg, job, req).None? && GuardedUpdate(cfg, job, job, req) == Ok(u) && u.Unsigned?
    ensures u.row.steps == job.steps && Editable(job.status) && Editable(u.row.status)
  {
  }

  lemma CaptureEdits(cfg: Config, job: Job, c: JobProtocol.Capture)
    requires CaptureResult(cfg, job, c).Ok?
    ensures CaptureResult(cfg, job, c).value.steps == job.steps
    ensures Editable(job.status) && Editable(CaptureResult(cfg, job, c).value.status)
  {
  }

  lemma FinishKeeps(env: Env, cfg: Config, job: Job, req: JobProtocol.Request, clock: Instant, u: Update)
    requires Inv(env, cfg, job, clock) && req.now > clock && cfg.stageCount >= 1
    requires Precheck(cfg, job, req).None? && GuardedUpdate(cfg, job, job, req) == Ok(u) && Finish(env, job, u).Ok?
    ensures Inv(env, cfg, Finish(env, job, u).value, req.now)
  {
    if u.Unsigned? {
      AssignEdits(cfg, job, req, u);
      EditKeeps(env, cfg, job, u.row, clock, req.now);
    } else {
      var d := env.contentHash(RecordOf(job, u.status, u.submitter, u.row.steps + [u.step])).value;
      SignedKeeps(env, cfg, job, req, clock, u, d);
    }
  }

  /** A refused request changes nothing but the time. */
  lemma LaterKeeps(env: Env, cfg: Config, job: Job, clock: Instant, now: Instant)
    requires Inv(env, cfg, job, clock) && now > clock
    ensures Inv(env, cfg, job, now)
  {
  }

  lemma ExecuteKeeps(env: Env, cfg: Config, job: Job, e: Event, clock: Instant)
    requires Inv(env, cfg, job, clock) && Now(e) > clock && cfg.stageCount >= 1
    ensures Inv(env, cfg, Execute(env, cfg, job, e), Now(e))
  {
    LaterKeeps(env, cfg, job, clock, Now(e));
    match e
    case Capture(c) =>
      if CaptureResult(cfg, job, c).Ok? {
        CaptureEdits(cfg, job, c);
        EditKeeps(env, cfg, job, CaptureResult(cfg, job, c).value, clock, c.now);
      }
    case Request(r) =>
      if Precheck(cfg, job, r).None? && Commit(env, cfg, job, job, r).Ok? {
        FinishKeeps(env, cfg, job, r, clock, GuardedUpdate(cfg, job, job, r).value);
      }
  }

  lemma {:induction false} RunKeeps(env: Env, cfg: Config, job: Job, events: seq<Event>)
    requires IsNew(job) && ClockIncreases(events) && cfg.stageCount >= 1 && events != []
    ensures Inv(env, cfg, Run(env, cfg, job, events), Now(events[|events| - 1]))
  {
    var n := |events| - 1;
    var earlier := events[..n];
    if n == 0 {
      assert Run(env, cfg, job, earlier) == job;
      ExecuteKeeps(env, cfg, job, events[0], Now(events[0]) - 1);
    } else {
      assert forall i, j | 0 <= i < j < |earlier| :: Now(earlier[i]) < Now(earlier[j]);
      RunKeeps(env, cfg, job, earlier);
      ExecuteKeeps(env, cfg, Run(env, cfg, job, earlier), events[n], Now(earlier[n - 1]));
    }
  }

  // ---------------------------------------------------------------- the theorems

  /** An archived record carries one submission and one verification per stage, by different people. */
  lemma ArchivedIsFullySigned(env: Env, cfg: Config, job: Job, events: seq<Event>)
    requires IsNew(job) && ClockIncreases(events) && cfg.stageCount >= 1
    requires Run(env, cfg, job, events).status == Archived
    ensures var archived := Run(env, cfg, job, events); var cycle := Cycle(archived.steps);
            && SignedThrough(cycle, cfg.stageCount)
            && (forall i, j | 1 <= i < j <= cfg.stageCount :: cycle[i].actorId != cycle[j].actorId)
            && (forall i | 1 <= i <= cfg.stageCount :: archived.submittedBy != Some(cycle[i].actorId))
  {
    RunKeeps(env, cfg, job, events);
  }

  /** The newest signature of a submitted, archived or voided job is of the record as it stands. */
  lemma NewestSignatureIsCurrent(env: Env, cfg: Config, job: Job, events: seq<Event>)
    requires IsNew(job) && ClockIncreases(events) && cfg.stageCount >= 1
    requires Run(env, cfg, job, events).status in {Submitted, Archived, Voided}
    ensures NewestSigned(env, Run(env, cfg, job, events))
  {
    RunKeeps(env, cfg, job, events);
  }
}

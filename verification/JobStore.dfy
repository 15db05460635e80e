/**
 The job row as the services update it: a guarded update inside a transaction, then the signed step;
 a failure after the guard rolls the row back. Each method does what `Commit` says.
 */
module JobStore {
  import opened Wrappers
  import opened Texts
  import opened CanonicalJobRecord
  import opened JobProtocol

  /** The row after a transaction, and the problem it was refused with. */
  ghost predicate Committed(outcome: Result<Job, Problem>, before: Job, after: Job, problem: Option<Problem>) {
    match outcome
    case Ok(row) => problem.None? && after == row
    case Err(p) => problem == Some(p) && after == before
  }

  class JobTable {
    var row: Job

    constructor (job: Job)
      ensures row == job
    {
      row := job;
    }

    /** `AssignmentService.assign`: the status read is pinned. */
    method Assign(env: Env, cfg: Config, snap: Job, req: Request) returns (problem: Option<Problem>)
      requires req.Assign?
      modifies this
      ensures Committed(Commit(env, cfg, old(row), snap, req), old(row), row, problem)
    {
      if row.status != snap.status {
        return Some(InvalidTransition);
      }
      row := row.(assignedTo := Some(req.assignee));
      if snap.status == Scheduled {
        row := row.(status := Assigned);
      }
      problem := None;
    }

    /** `SubmissionService.submit` */
    method Submit(env: Env, cfg: Config, snap: Job, req: Request) returns (problem: Option<Problem>)
      requires req.Submit?
      modifies this
      ensures Committed(Commit(env, cfg, old(row), snap, req), old(row), row, problem)
    {
      if row.status != InProgress {
        return Some(InvalidTransition);
      }
      var before := row;
      row := row.(status := Submitted, submittedAt := Some(req.now), submittedBy := Some(req.actor),
                  currentStageOrdinal := Some(1));
      problem := CreateStep(env, snap, Submitted, Submitter(Some(req.actor), Some(req.now)),
                            NewStep(req.stepId, 0, StepSubmitted, req.actor, None, None, req.now));
      if problem.Some? {
        row := before;
      }
    }

    /** `VerificationService.verify`: the guarded stage advance, then the one-signature-per-person check. */
    method Verify(env: Env, cfg: Config, snap: Job, req: Request) returns (problem: Option<Problem>)
      requires req.Verify?
      modifies this
      ensures Committed(Commit(env, cfg, old(row), snap, req), old(row), row, problem)
    {
      var stage := StageOf(snap, 1);
      var isFinal := stage >= cfg.stageCount;
      if row.status != Submitted || row.currentStageOrdinal != Some(stage) {
        return Some(InvalidTransition);
      }
      var before := row;
      if isFinal {
        row := row.(status := Archived, verifiedAt := Some(req.now), archivedAt := Some(req.now),
                    currentStageOrdinal := None);
      } else {
        row := row.(currentStageOrdinal := Some(stage + 1));
      }
      var already := VerifiedThisCycle(row.steps, req.actor);
      if already {
        row := before;
        return Some(SelfApproval);
      }
      problem := CreateStep(env, snap, if isFinal then Archived else Submitted,
                            Submitter(snap.submittedBy, snap.submittedAt),
                            NewStep(req.stepId, stage, StepVerified, req.actor, req.onBehalfOf, req.comment, req.now));
      if problem.Some? {
        row := before;
      }
    }

    /** `ApprovalTransitionsService.runTransition`, for return, recall and void. */
    method RunTransition(env: Env, cfg: Config, snap: Job, req: Request) returns (problem: Option<Problem>)
      requires req.Return? || req.Recall? || req.Void?
      modifies this
      ensures Committed(Commit(env, cfg, old(row), snap, req), old(row), row, problem)
    {
      var before := row;
      var guarded := if !req.Void? then row.status == Submitted
                     else if snap.status == Archived then row.status == Archived
                     else row.status in {Scheduled, Assigned, InProgress, Submitted};
      if !guarded {
        return Some(Forbidden);
      }
      var submitter := Submitter(snap.submittedBy, snap.submittedAt);
      match req {
        case Void(actor, _, reason, voidedAt, stepId, now) =>
          row := row.(status := Voided, voidReason := Some(reason), voidedBy := Some(actor),
                      voidedAt := Some(voidedAt));
          problem := CreateStep(env, snap, Voided, submitter,
                                NewStep(stepId, StageOf(snap, 0), StepVoided, actor, None, Some(reason), now));
        case Return(actor, reason, stepId, now) =>
          row := row.(status := InProgress, currentStageOrdinal := None);
          problem := CreateStep(env, snap, InProgress, submitter,
                                NewStep(stepId, StageOf(snap, 1), StepReturned, actor, None, Some(reason), now));
        case Recall(actor, stepId, now) =>
          row := row.(status := InProgress, currentStageOrdinal := None);
          problem := CreateStep(env, snap, InProgress, submitter,
                                NewStep(stepId, StageOf(snap, 1), StepRecalled, actor, None, None, now));
      }
      if problem.Some? {
        row := before;
      }
    }

    /** Hashes and signs the record of what was read, with the step included, and appends the step. */
    method CreateStep(env: Env, snap: Job, status: JobStatus, submitter: Submitter, step: Step)
      returns (problem: Option<Problem>)
      modifies this
      ensures Committed(Finish(env, snap, Signed(old(row), status, submitter, step)), old(row), row, problem)
    {
      var contentHash := env.contentHash(RecordOf(snap, status, submitter, row.steps + [step]));
      if contentHash.None? {
        return Some(MalformedReading);
      }
      if IsOwnVerification(row, step) {
        return Some(RefusedByTrigger);
      }
      row := row.(steps := row.steps + [step.(contentHash := contentHash.value,
                                              signature := env.sign(contentHash.value))]);
      problem := None;
    }

    /**
     `ResultsService.recordItemResult` and `recordMeasurementResult`: the checks are made on the job that
     was read, and the transaction writes whatever row it finds, unless the table refuses.
     */
    method RecordResult(cfg: Config, snap: Job, c: Capture) returns (problem: Option<Problem>)
      requires IsResult(c)
      modifies this
      ensures CapturePrecheck(cfg, snap, c).Some? ==> problem == CapturePrecheck(cfg, snap, c) && row == old(row)
      ensures CapturePrecheck(cfg, snap, c).None? ==>
        Committed(CaptureCommit(old(row), snap, c), old(row), row, problem)
    {
      var refused := AssertJobWritable(snap.status);
      if refused.Some? {
        return refused;
      }
      if c.ifMatch.Some? && c.ifMatch.value != snap.draftVersion {
        return Some(DraftConflict);
      }
      if (if c.RecordItem? then c.templateItemId !in cfg.templateItems
          else c.templateMeasurementId !in cfg.templateMeasurements) {
        return Some(NotFound);
      }
      var before := row;
      if c.RecordItem? {
        row := row.(itemResults := Upsert(row.itemResults, ItemKey(), ItemWrite(c)));
      } else {
        row := row.(measurementResults := Upsert(row.measurementResults, MeasurementKey(), MeasurementWrite(c)));
      }
      problem := TransitionToInProgress(snap.status, c.now);
      if problem.Some? {
        row := before;
      }
    }

    /** The unguarded write of `transitionToInProgress`, which an archived or voided row refuses. */
    method TransitionToInProgress(currentStatus: JobStatus, now: Instant) returns (problem: Option<Problem>)
      modifies this
      ensures problem.Some? <==> old(row).status == Archived || old(row).status == Voided
      ensures problem.Some? ==> problem == Some(RefusedByTrigger) && row == old(row)
      ensures problem.None? ==>
        row == old(row).(status := if currentStatus == Assigned then InProgress else old(row).status,
                         startedAt := if currentStatus == Assigned then Some(now) else old(row).startedAt,
                         draftVersion := old(row).draftVersion + 1)
    {
      if row.status == Archived || row.status == Voided {
        return Some(RefusedByTrigger);
      }
      if currentStatus == Assigned {
        row := row.(status := InProgress, startedAt := Some(now));
      }
      row := row.(draftVersion := row.draftVersion + 1);
      problem := None;
    }

    /** `PartsService.recordPart`, without a guard on the job row. */
    method RecordPart(cfg: Config, snap: Job, c: Capture) returns (problem: Option<Problem>)
      requires c.RecordPart?
      modifies this
      ensures CapturePrecheck(cfg, snap, c).Some? ==> problem == CapturePrecheck(cfg, snap, c) && row == old(row)
      ensures CapturePrecheck(cfg, snap, c).None? ==>
        Committed(CaptureCommit(old(row), snap, c), old(row), row, problem)
    {
      problem := AssertJobWritable(snap.status);
      if problem.Some? {
        return;
      }
      var created := PartRow(PartUsed(c.partId, c.partNo, c.description, c.quantity), true);
      problem := InsertPart(created, PartWrite(c));
    }

    /** `PartsService.upsertPart`, without a guard on the job row. */
    method UpsertPart(cfg: Config, snap: Job, c: Capture) returns (problem: Option<Problem>)
      requires c.UpsertPart?
      modifies this
      ensures CapturePrecheck(cfg, snap, c).Some? ==> problem == CapturePrecheck(cfg, snap, c) && row == old(row)
      ensures CapturePrecheck(cfg, snap, c).None? ==>
        Committed(CaptureCommit(old(row), snap, c), old(row), row, problem)
    {
      problem := AssertJobWritable(snap.status);
      if problem.Some? {
        return;
      }
      if c.ofOtherJob {
        return Some(NotFound);
      }
      row := row.(partRows := Upsert(row.partRows, PartKey(), PartWrite(c)));
    }

    /** `AttachmentsService.upload`, without a guard on the job row. */
    method Upload(cfg: Config, snap: Job, c: Capture) returns (problem: Option<Problem>)
      requires c.Attach?
      modifies this
      ensures CapturePrecheck(cfg, snap, c).Some? ==> problem == CapturePrecheck(cfg, snap, c) && row == old(row)
      ensures CapturePrecheck(cfg, snap, c).None? ==>
        Committed(CaptureCommit(old(row), snap, c), old(row), row, problem)
    {
      if !c.isImage {
        return Some(AttachmentRejected);
      }
      problem := AssertJobWritable(snap.status);
      if problem.Some? {
        return;
      }
      if c.itemResultId.Some? && !InUse(snap.itemResults, ItemId(), c.itemResultId.value) {
        return Some(NotFound);
      }
      if !c.belowCap {
        return Some(AttachmentRejected);
      }
      if InUse(row.attachments, AttachmentId(), c.attachmentId) {
        return Some(NotUnique);
      }
      var created := Attachment(c.attachmentId, c.sha256Hex);
      UpsertAppends(row.attachments, AttachmentId(), AttachmentWrite(c));
      row := row.(attachments := row.attachments + [created]);
    }

    /** An insert under the primary key. */
    method InsertPart(created: PartRow, ghost w: RowWrite<PartRow>) returns (problem: Option<Problem>)
      requires w.key == created.part.id && w.create == created
      modifies this
      ensures problem == if InUse(old(row).partRows, PartKey(), created.part.id) then Some(NotUnique) else None
      ensures row == if problem.Some? then old(row)
                     else old(row).(partRows := Upsert(old(row).partRows, PartKey(), w))
    {
      if InUse(row.partRows, PartKey(), created.part.id) {
        return Some(NotUnique);
      }
      UpsertAppends(row.partRows, PartKey(), w);
      row := row.(partRows := row.partRows + [created]);
      problem := None;
    }
  }

  /** `assertJobWritable` */
  method AssertJobWritable(status: JobStatus) returns (problem: Option<Problem>)
    ensures problem == if status == Archived then Some(RecordImmutable)
                       else if status != Assigned && status != InProgress then Some(InvalidTransition)
                       else None
  {
    if status == Assigned || status == InProgress {
      return None;
    }
    if status == Archived {
      return Some(RecordImmutable);
    }
    return Some(InvalidTransition);
  }

  /** Under a key that is not in use an upsert appends. */
  lemma {:induction false} UpsertAppends<T>(rows: seq<T>, key: T -> Text, w: RowWrite<T>)
    requires !InUse(rows, key, w.key)
    ensures Upsert(rows, key, w) == rows + [w.create]
  {
    if rows != [] {
      assert key(rows[0]) != w.key;
      forall i | 0 <= i < |rows[1..]| ensures key(rows[1..][i]) != w.key {
        assert rows[1..][i] == rows[i + 1];
      }
      UpsertAppends(rows[1..], key, w);
    }
  }

  /** The reduce over the steps for the last break, then the search for the actor's verification. */
  method VerifiedThisCycle(steps: seq<Step>, actor: UserId) returns (already: bool)
    ensures already <==> AlreadyVerifiedThisCycle(steps, actor)
  {
    var lastBreak: Option<Instant> := None;
    for i := 0 to |steps|
      invariant lastBreak == LastCycleBreak(steps[..i])
    {
      assert steps[..i + 1][..i] == steps[..i];
      if IsBreak(steps[i]) && (lastBreak.None? || steps[i].actedAt > lastBreak.value) {
        lastBreak := Some(steps[i].actedAt);
      }
    }
    assert steps[..|steps|] == steps;
    already := false;
    for i := 0 to |steps|
      invariant already <==> exists k | 0 <= k < i ::
        && steps[k].action == StepVerified
        && steps[k].actorId == actor
        && (lastBreak.None? || steps[k].actedAt > lastBreak.value)
    {
      if steps[i].action == StepVerified && steps[i].actorId == actor
         && (lastBreak.None? || steps[i].actedAt > lastBreak.value) {
        already := true;
      }
    }
  }
}

/**
 What each request comes to on any job that atomic requests can reach: exactly when it is let through, by the
 status and by who has signed the current cycle, and everything it writes.
 */
module RequestOutcomes {
  import opened Wrappers
  import opened Texts
  import opened CanonicalSerialiser
  import opened CanonicalJobRecord
  import opened CanonicalEquality
  import opened JobRecordEquality
  import opened JobProtocol
  import opened JobRuns
  import opened CanonicalBytes
  import opened RecordIntegrity
  import opened RevisedRows
  import opened MandatoryItems

  /** Records are hashed exactly where every stored number is a plain decimal. */
  ghost predicate HashesReadable(env: Env) {
    forall input: RecordInput :: env.contentHash(input).Some? <==> AllReadable(input)
  }

  /** So does the service's own hash. */
  lemma ContentHashReadable(nfc: Normaliser, iso: DateFormat, sha256: seq<Byte> -> Digest, env: Env)
    requires env.contentHash == ContentHash(nfc, iso, sha256)
    ensures HashesReadable(env)
  {
    forall input: RecordInput ensures ContentHash(nfc, iso, sha256)(input).Some? <==> AllReadable(input) {
      HashedIff(nfc, iso, sha256, input);
    }
  }

  lemma HashedIff(nfc: Normaliser, iso: DateFormat, sha256: seq<Byte> -> Digest, input: RecordInput)
    ensures ContentHash(nfc, iso, sha256)(input).Some? <==> AllReadable(input)
  {
    if AllReadable(input) {
      var v := Build(iso, input).value;
      BuildHashable(nfc, iso, input);
      AcceptedIff(nfc, v);
      HashOfBytes(nfc, iso, sha256, input, v, CanonicalSerialise(nfc, v).value);
    } else {
      UnreadableHasNoHash(nfc, iso, sha256, input);
    }
  }

  /** One more step at the end of the row, with these columns. */
  ghost predicate Appends(
    after: Job, row: Job, id: Text, stage: int, action: StepAction, actor: UserId, onBehalfOf: Option<UserId>,
    reason: Option<Text>, at: Instant)
  {
    && |after.steps| == |row.steps| + 1 && after.steps[..|row.steps|] == row.steps
    && after == row.(steps := after.steps)
    && var t := after.steps[|row.steps|];
       && t.id == id && t.stageOrdinal == stage && t.action == action && t.actorId == actor
       && t.onBehalfOfId == onBehalfOf && t.reason == reason && t.actedAt == at
  }

  lemma FinishAppends(env: Env, snap: Job, u: Update)
    requires HashesReadable(env) && u.Signed? && !IsOwnVerification(u.row, u.step)
    ensures Finish(env, snap, u).Ok? <==> ReadableRows(snap)
    ensures Finish(env, snap, u).Ok? ==>
      Appends(Finish(env, snap, u).value, u.row, u.step.id, u.step.stageOrdinal, u.step.action, u.step.actorId,
              u.step.onBehalfOfId, u.step.reason, u.step.actedAt)
  {
    var record := RecordOf(snap, u.status, u.submitter, u.row.steps + [u.step]);
    assert AllReadable(record) <==> ReadableRows(snap);
  }

  // ---------------------------------------------------------------- reachable jobs

  /** Only a submitted job, or one voided while it was, awaits a stage. */
  ghost predicate StageHeld(job: Job) {
    job.status in {Submitted, Voided} || job.currentStageOrdinal == None
  }

  lemma StageHeldNext(env: Env, cfg: Config, job: Job, e: Event)
    requires StageHeld(job)
    ensures StageHeld(Execute(env, cfg, job, e))
  {
  }

  lemma {:induction false} RunHoldsStage(env: Env, cfg: Config, job: Job, events: seq<Event>)
    requires IsNew(job)
    ensures StageHeld(Run(env, cfg, job, events))
  {
    if events != [] {
      RunHoldsStage(env, cfg, job, events[..|events| - 1]);
      StageHeldNext(env, cfg, Run(env, cfg, job, events[..|events| - 1]), events[|events| - 1]);
    }
  }

  /** A job that requests with ascending times have made of a new one, and a later request. */
  ghost predicate IsReached(env: Env, cfg: Config, job: Job, events: seq<Event>, e: Event) {
    IsNew(job) && ClockIncreases(events + [e]) && cfg.stageCount >= 1
  }

  lemma Reached(env: Env, cfg: Config, job: Job, events: seq<Event>, e: Event) returns (clock: Instant)
    requires IsReached(env, cfg, job, events, e)
    ensures Shape(cfg, Run(env, cfg, job, events), clock) && StageHeld(Run(env, cfg, job, events))
    ensures Run(env, cfg, job, events + [e]) == Execute(env, cfg, Run(env, cfg, job, events), e)
  {
    var all := events + [e];
    assert all[..|events|] == events;
    RunHoldsStage(env, cfg, job, events);
    if events == [] {
      clock := Now(e) - 1;
    } else {
      assert forall i, j | 0 <= i < j < |events| :: Now(all[i]) < Now(all[j]);
      RunKeeps(env, cfg, job, events);
      clock := Now(events[|events| - 1]);
    }
  }

  // ---------------------------------------------------------------- verification

  /** Somebody eligible who has not signed the current cycle, submission included. */
  ghost predicate MayVerify(job: Job, req: JobProtocol.Request)
    requires req.Verify?
  {
    && job.status == Submitted && req.eligible && (req.onBehalfOf.Some? ==> req.delegationActive)
    && forall i | 0 <= i < |Cycle(job.steps)| :: Cycle(job.steps)[i].actorId != req.actor
  }

  lemma SignerIff(cfg: Config, job: Job, clock: Instant, actor: UserId)
    requires Shape(cfg, job, clock) && job.status == Submitted
    ensures
      (exists i | 0 <= i < |Cycle(job.steps)| :: Cycle(job.steps)[i].actorId == actor) <==>
      job.submittedBy == Some(actor) || AlreadyVerifiedThisCycle(job.steps, actor)
  {
    var cycle := Cycle(job.steps);
    AlreadyVerifiedIff(job.steps, clock, actor);
    if exists i | 0 <= i < |cycle| :: cycle[i].actorId == actor {
      var i :| 0 <= i < |cycle| && cycle[i].actorId == actor;
      assert i > 0 ==> VerifiedIn(cycle, actor);
    }
    assert cycle[0].actorId == job.submittedBy.value;
  }

  /** The row after the stage `stage` is verified. */
  function AfterStage(cfg: Config, job: Job, stage: nat, now: Instant): Job {
    if stage == cfg.stageCount
    then job.(status := Archived, verifiedAt := Some(now), archivedAt := Some(now), currentStageOrdinal := None)
    else job.(currentStageOrdinal := Some(stage + 1))
  }

  lemma VerifyPasses(cfg: Config, job: Job, clock: Instant, req: JobProtocol.Request)
    requires Shape(cfg, job, clock) && req.Verify? && MayVerify(job, req)
    ensures Precheck(cfg, job, req).None? && job.submittedBy != Some(req.actor)
    ensures
      var stage := |Cycle(job.steps)|;
      GuardedUpdate(cfg, job, job, req) ==
        Ok(Signed(AfterStage(cfg, job, stage, req.now), if stage == cfg.stageCount then Archived else Submitted,
                  Submitter(job.submittedBy, job.submittedAt),
                  NewStep(req.stepId, stage, StepVerified, req.actor, req.onBehalfOf, req.comment, req.now)))
  {
    SignerIff(cfg, job, clock, req.actor);
  }

  lemma VerifyAccepted(env: Env, cfg: Config, job: Job, clock: Instant, req: JobProtocol.Request)
    requires HashesReadable(env) && Shape(cfg, job, clock) && req.Verify? && MayVerify(job, req)
    ensures
      var stage := |Cycle(job.steps)|;
      if ReadableRows(job)
      then Appends(Execute(env, cfg, job, Request(req)), AfterStage(cfg, job, stage, req.now), req.stepId, stage,
                   StepVerified, req.actor, req.onBehalfOf, req.comment, req.now)
      else Execute(env, cfg, job, Request(req)) == job
  {
    VerifyPasses(cfg, job, clock, req);
    FinishAppends(env, job, GuardedUpdate(cfg, job, job, req).value);
  }

  lemma VerifyRefused(env: Env, cfg: Config, job: Job, clock: Instant, req: JobProtocol.Request)
    requires Shape(cfg, job, clock) && req.Verify? && !MayVerify(job, req)
    ensures Execute(env, cfg, job, Request(req)) == job
  {
    if job.status == Submitted && req.eligible && (req.onBehalfOf.Some? ==> req.delegationActive) {
      SignerRefused(env, cfg, job, clock, req);
    }
  }

  lemma SignerRefused(env: Env, cfg: Config, job: Job, clock: Instant, req: JobProtocol.Request)
    requires Shape(cfg, job, clock) && req.Verify? && job.status == Submitted
    requires exists i | 0 <= i < |Cycle(job.steps)| :: Cycle(job.steps)[i].actorId == req.actor
    ensures Execute(env, cfg, job, Request(req)) == job
  {
    SignerIff(cfg, job, clock, req.actor);
  }

  /**
   A verification is let through exactly for somebody eligible who has signed nothing in the current cycle. It
   signs the next stage, and archives the job with the last one.
   */
  lemma VerifyOutcome(env: Env, cfg: Config, job: Job, events: seq<Event>, req: JobProtocol.Request)
    requires HashesReadable(env) && req.Verify? && IsReached(env, cfg, job, events, Request(req))
    ensures
      var before, after := Run(env, cfg, job, events), Run(env, cfg, job, events + [Request(req)]);
      var stage := |Cycle(before.steps)|;
      if MayVerify(before, req) && ReadableRows(before)
      then Appends(after, AfterStage(cfg, before, stage, req.now), req.stepId, stage, StepVerified, req.actor,
                   req.onBehalfOf, req.comment, req.now)
      else after == before
  {
    var clock := Reached(env, cfg, job, events, Request(req));
    var before := Run(env, cfg, job, events);
    if MayVerify(before, req) {
      VerifyAccepted(env, cfg, before, clock, req);
    } else {
      VerifyRefused(env, cfg, before, clock, req);
    }
  }

  // ---------------------------------------------------------------- submission, return, recall, void

  /** A submission is let through exactly on a job in progress that has every mandatory result. */
  lemma SubmitOutcome(env: Env, cfg: Config, job: Job, events: seq<Event>, req: JobProtocol.Request)
    requires HashesReadable(env) && req.Submit? && IsReached(env, cfg, job, events, Request(req))
    ensures
      var before, after := Run(env, cfg, job, events), Run(env, cfg, job, events + [Request(req)]);
      if before.status == InProgress && HasMandatory(cfg, before) && req.titleFilled && ReadableRows(before)
      then Appends(after, before.(status := Submitted, submittedBy := Some(req.actor), submittedAt := Some(req.now),
                                  currentStageOrdinal := Some(1)),
                   req.stepId, 0, StepSubmitted, req.actor, None, None, req.now)
      else after == before
  {
    var clock := Reached(env, cfg, job, events, Request(req));
    var before := Run(env, cfg, job, events);
    OutstandingIff(cfg, before);
    if before.status == InProgress {
      FinishAppends(env, before, GuardedUpdate(cfg, before, before, req).value);
    }
  }

  /** A return is let through exactly on a submitted job, and a recall only by whoever submitted it. */
  lemma BreakOutcome(env: Env, cfg: Config, job: Job, events: seq<Event>, req: JobProtocol.Request)
    requires HashesReadable(env) && (req.Return? || req.Recall?) && IsReached(env, cfg, job, events, Request(req))
    ensures
      var before, after := Run(env, cfg, job, events), Run(env, cfg, job, events + [Request(req)]);
      var cycle := Cycle(before.steps);
      && (before.status == Submitted ==> cycle != [])
      && if before.status == Submitted && (req.Recall? ==> cycle[0].actorId == req.actor) && ReadableRows(before)
         then Appends(after, before.(status := InProgress, currentStageOrdinal := None), req.stepId, |cycle|,
                      if req.Return? then StepReturned else StepRecalled, req.actor, None,
                      if req.Return? then Some(req.reason) else None, req.now)
         else after == before
  {
    var clock := Reached(env, cfg, job, events, Request(req));
    var before := Run(env, cfg, job, events);
    if before.status == Submitted {
      FinishAppends(env, before, GuardedUpdate(cfg, before, before, req).value);
    }
  }

  /** A void is let through exactly on a job that is not voided, and by an administrator where it is archived. */
  lemma VoidOutcome(env: Env, cfg: Config, job: Job, events: seq<Event>, req: JobProtocol.Request)
    requires HashesReadable(env) && req.Void? && IsReached(env, cfg, job, events, Request(req))
    ensures
      var before, after := Run(env, cfg, job, events), Run(env, cfg, job, events + [Request(req)]);
      if before.status != Voided && (before.status == Archived ==> req.isAdmin) && ReadableRows(before)
      then Appends(after, before.(status := Voided, voidReason := Some(req.reason), voidedBy := Some(req.actor),
                                  voidedAt := Some(req.voidedAt)),
                   req.stepId, if before.status == Submitted then |Cycle(before.steps)| else 0, StepVoided, req.actor,
                   None, Some(req.reason), req.now)
      else after == before
  {
    var clock := Reached(env, cfg, job, events, Request(req));
    var before := Run(env, cfg, job, events);
    if before.status != Voided {
      FinishAppends(env, before, GuardedUpdate(cfg, before, before, req).value);
    }
  }

  /** An assignment is let through exactly until the job is submitted, to somebody assignable. */
  lemma AssignOutcome(env: Env, cfg: Config, job: Job, events: seq<Event>, req: JobProtocol.Request)
    requires req.Assign? && IsReached(env, cfg, job, events, Request(req))
    ensures
      var before, after := Run(env, cfg, job, events), Run(env, cfg, job, events + [Request(req)]);
      after == if before.status in {Scheduled, Assigned, InProgress} && req.assignable
               then before.(assignedTo := Some(req.assignee),
                            status := if before.status == Scheduled then Assigned else before.status)
               else before
  {
    var clock := Reached(env, cfg, job, events, Request(req));
  }

  // ---------------------------------------------------------------- captures

  ghost predicate MayRecord(cfg: Config, job: Job, c: JobProtocol.Capture)
    requires c.RecordItem? || c.RecordMeasurement?
  {
    && job.status in {Assigned, InProgress}
    && (c.ifMatch.Some? ==> c.ifMatch.value == job.draftVersion)
    && (c.RecordItem? ==> c.templateItemId in cfg.templateItems)
    && (c.RecordMeasurement? ==> c.templateMeasurementId in cfg.templateMeasurements)
  }

  /** What every recorded result does to the row besides. */
  ghost predicate StartsJob(before: Job, after: Job, now: Instant) {
    && after.status == InProgress && after.draftVersion == before.draftVersion + 1
    && after.startedAt == (if before.status == Assigned then Some(now) else before.startedAt)
    && after == before.(status := InProgress, startedAt := after.startedAt, draftVersion := after.draftVersion,
                        itemResults := after.itemResults, measurementResults := after.measurementResults)
  }

  lemma StartedStarts(job: Job, row: Job, now: Instant)
    requires job.status in {Assigned, InProgress}
    requires row == job.(itemResults := row.itemResults, measurementResults := row.measurementResults)
    ensures
      var after := Started(row, job, now);
      StartsJob(job, after, now)
      && after.itemResults == row.itemResults && after.measurementResults == row.measurementResults
  {
  }

  lemma RecordAccepted(env: Env, cfg: Config, job: Job, c: JobProtocol.Capture)
    requires IsResult(c) && MayRecord(cfg, job, c)
    ensures Execute(env, cfg, job, Capture(c)) == CaptureWrite(job, job, c)
  {
  }

  lemma RecordRefused(env: Env, cfg: Config, job: Job, c: JobProtocol.Capture)
    requires IsResult(c) && !MayRecord(cfg, job, c)
    ensures Execute(env, cfg, job, Capture(c)) == job
  {
  }

  /** A result is recorded exactly on an open job, for an item of its template, at the draft version that was seen. */
  lemma ItemOutcome(env: Env, cfg: Config, job: Job, events: seq<Event>, c: JobProtocol.Capture)
    requires c.RecordItem? && IsReached(env, cfg, job, events, Capture(c))
    ensures
      var before, after := Run(env, cfg, job, events), Run(env, cfg, job, events + [Capture(c)]);
      if MayRecord(cfg, before, c)
      then
        && StartsJob(before, after, c.now) && after.measurementResults == before.measurementResults
        && ItemRecorded(before, after, c)
      else after == before
  {
    var clock := Reached(env, cfg, job, events, Capture(c));
    var before := Run(env, cfg, job, events);
    if MayRecord(cfg, before, c) {
      RecordAccepted(env, cfg, before, c);
      ItemUpserted(before, CaptureWrite(before, before, c), c);
      StartedStarts(before, before.(itemResults := Upsert(before.itemResults, ItemKey(), ItemWrite(c))), c.now);
    } else {
      RecordRefused(env, cfg, before, c);
    }
  }

  lemma MeasurementOutcome(env: Env, cfg: Config, job: Job, events: seq<Event>, c: JobProtocol.Capture)
    requires c.RecordMeasurement? && IsReached(env, cfg, job, events, Capture(c))
    ensures
      var before, after := Run(env, cfg, job, events), Run(env, cfg, job, events + [Capture(c)]);
      if MayRecord(cfg, before, c)
      then
        && StartsJob(before, after, c.now) && after.itemResults == before.itemResults
        && MeasurementRecorded(before, after, c)
      else after == before
  {
    var clock := Reached(env, cfg, job, events, Capture(c));
    var before := Run(env, cfg, job, events);
    if MayRecord(cfg, before, c) {
      RecordAccepted(env, cfg, before, c);
      MeasurementUpserted(before, CaptureWrite(before, before, c), c);
      var row := before.(measurementResults :=
                           Upsert(before.measurementResults, MeasurementKey(), MeasurementWrite(c)));
      StartedStarts(before, row, c.now);
    } else {
      RecordRefused(env, cfg, before, c);
    }
  }

  // ---------------------------------------------------------------- rows written

  ghost predicate IsFirst<T>(rows: seq<T>, key: T -> Text, k: Text, i: nat) {
    i < |rows| && key(rows[i]) == k && forall j | 0 <= j < i :: key(rows[j]) != k
  }

  /** The first row of the key is updated, or there being none a new one is put at the end; the rest is as before. */
  ghost predicate Upserted<T>(
    rows: seq<T>, now: seq<T>, key: T -> Text, k: Text, updated: T -> T, created: T)
  {
    && (forall i: nat | IsFirst(rows, key, k, i) :: now == rows[i := updated(rows[i])])
    && ((forall i: nat :: !IsFirst(rows, key, k, i)) ==> now == rows + [created])
  }

  lemma {:induction false} UpsertIs<T(!new)>(
    rows: seq<T>, key: T -> Text, w: RowWrite<T>, column: T -> Text, updated: T -> T)
    requires forall r :: key(r) == column(r) && w.update(r) == updated(r)
    ensures Upserted(rows, Upsert(rows, key, w), column, w.key, updated, w.create)
  {
    if rows != [] && column(rows[0]) != w.key {
      var tail := rows[1..];
      UpsertIs(tail, key, w, column, updated);
      assert rows == [rows[0]] + tail;
      forall i: nat | IsFirst(tail, column, w.key, i) ensures IsFirst(rows, column, w.key, i + 1) {
        forall j | 0 <= j < i + 1 ensures column(rows[j]) != w.key {
          assert j > 0 ==> rows[j] == tail[j - 1];
        }
      }
      forall i: nat | IsFirst(rows, column, w.key, i) ensures Upsert(rows, key, w) == rows[i := updated(rows[i])] {
        FirstInTail(rows, column, w.key, i);
      }
    } else if rows != [] {
      assert IsFirst(rows, column, w.key, 0);
    }
  }

  lemma FirstInTail<T>(rows: seq<T>, key: T -> Text, k: Text, i: nat)
    requires IsFirst(rows, key, k, i) && key(rows[0]) != k
    ensures i > 0 && IsFirst(rows[1..], key, k, i - 1)
  {
  }

  /** The row of the item says what was recorded. */
  ghost predicate ItemRecorded(before: Job, after: Job, c: JobProtocol.Capture)
    requires c.RecordItem?
  {
    Upserted(before.itemResults, after.itemResults, (r: ItemResult) => r.templateItemId, c.templateItemId,
             (r: ItemResult) => ItemResult(r.id, r.templateItemId, c.status, c.remark),
             ItemResult(c.rowId, c.templateItemId, c.status, c.remark))
  }

  lemma ItemUpserted(before: Job, after: Job, c: JobProtocol.Capture)
    requires c.RecordItem? && after.itemResults == Upsert(before.itemResults, ItemKey(), ItemWrite(c))
    ensures ItemRecorded(before, after, c)
  {
    UpsertIs(before.itemResults, ItemKey(), ItemWrite(c), (r: ItemResult) => r.templateItemId,
             (r: ItemResult) => ItemResult(r.id, r.templateItemId, c.status, c.remark));
  }

  ghost predicate MeasurementRecorded(before: Job, after: Job, c: JobProtocol.Capture)
    requires c.RecordMeasurement?
  {
    Upserted(before.measurementResults, after.measurementResults,
             (r: MeasurementResult) => r.templateMeasurementId, c.templateMeasurementId,
             (r: MeasurementResult) =>
               MeasurementResult(r.id, r.templateMeasurementId, c.readingNumeric, c.readingText, c.judgement),
             MeasurementResult(c.rowId, c.templateMeasurementId, c.readingNumeric, c.readingText, c.judgement))
  }

  lemma MeasurementUpserted(before: Job, after: Job, c: JobProtocol.Capture)
    requires c.RecordMeasurement?
    requires after.measurementResults == Upsert(before.measurementResults, MeasurementKey(), MeasurementWrite(c))
    ensures MeasurementRecorded(before, after, c)
  {
    UpsertIs(before.measurementResults, MeasurementKey(), MeasurementWrite(c),
             (r: MeasurementResult) => r.templateMeasurementId,
             (r: MeasurementResult) =>
               MeasurementResult(r.id, r.templateMeasurementId, c.readingNumeric, c.readingText, c.judgement));
  }

  // ---------------------------------------------------------------- parts and attachments

  ghost predicate PartStored(before: Job, after: Job, c: JobProtocol.Capture, active: bool)
    requires c.RecordPart? || c.UpsertPart?
  {
    && after == before.(partRows := after.partRows)
    && Upserted(before.partRows, after.partRows, (r: PartRow) => r.part.id, c.partId,
                (r: PartRow) => PartRow(PartUsed(r.part.id, c.partNo, c.description, c.quantity), active),
                PartRow(PartUsed(c.partId, c.partNo, c.description, c.quantity), active))
  }

  lemma PartUpserted(job: Job, c: JobProtocol.Capture)
    requires c.RecordPart? || c.UpsertPart?
    ensures PartStored(job, CaptureWrite(job, job, c), c, c.RecordPart? || c.active)
  {
    var active := c.RecordPart? || c.active;
    UpsertIs(job.partRows, PartKey(), PartWrite(c), (r: PartRow) => r.part.id,
             (r: PartRow) => PartRow(PartUsed(r.part.id, c.partNo, c.description, c.quantity), active));
  }

  ghost predicate HasPart(job: Job, id: Text) {
    exists i | 0 <= i < |job.partRows| :: job.partRows[i].part.id == id
  }

  ghost predicate MayStore(job: Job, c: JobProtocol.Capture)
    requires c.RecordPart? || c.UpsertPart?
  {
    job.status in {Assigned, InProgress} && if c.RecordPart? then !HasPart(job, c.partId) else !c.ofOtherJob
  }

  lemma PartChecked(env: Env, cfg: Config, job: Job, c: JobProtocol.Capture)
    requires c.RecordPart? || c.UpsertPart?
    ensures Execute(env, cfg, job, Capture(c)) == if MayStore(job, c) then CaptureWrite(job, job, c) else job
  {
    InUseIff(job, c.partId);
  }

  /** A part is stored exactly on an open job, a new one under an id not in use, a known one with its job. */
  lemma PartOutcome(env: Env, cfg: Config, job: Job, events: seq<Event>, c: JobProtocol.Capture)
    requires (c.RecordPart? || c.UpsertPart?) && IsReached(env, cfg, job, events, Capture(c))
    ensures
      var before, after := Run(env, cfg, job, events), Run(env, cfg, job, events + [Capture(c)]);
      if MayStore(before, c) then PartStored(before, after, c, c.RecordPart? || c.active) else after == before
  {
    var clock := Reached(env, cfg, job, events, Capture(c));
    PartChecked(env, cfg, Run(env, cfg, job, events), c);
    PartUpserted(Run(env, cfg, job, events), c);
  }

  lemma InUseIff(job: Job, id: Text)
    ensures InUse(job.partRows, PartKey(), id) <==> HasPart(job, id)
  {
    if HasPart(job, id) {
      var i :| 0 <= i < |job.partRows| && job.partRows[i].part.id == id;
      assert PartKey()(job.partRows[i]) == id;
    }
  }

  ghost predicate MayAttach(job: Job, c: JobProtocol.Capture)
    requires c.Attach?
  {
    && job.status in {Assigned, InProgress} && c.isImage && c.belowCap
    && (c.itemResultId.Some? ==> exists i | 0 <= i < |job.itemResults| :: job.itemResults[i].id == c.itemResultId.value)
    && forall i | 0 <= i < |job.attachments| :: job.attachments[i].id != c.attachmentId
  }

  lemma NewAttachment(job: Job, c: JobProtocol.Capture)
    requires c.Attach? && forall i | 0 <= i < |job.attachments| :: job.attachments[i].id != c.attachmentId
    ensures CaptureWrite(job, job, c)
            == job.(attachments := job.attachments + [Attachment(c.attachmentId, c.sha256Hex)])
  {
    UpsertIs(job.attachments, AttachmentId(), AttachmentWrite(c), (a: Attachment) => a.id,
             (a: Attachment) => a.(sha256Hex := c.sha256Hex));
  }

  lemma AttachChecked(cfg: Config, job: Job, c: JobProtocol.Capture)
    requires c.Attach?
    ensures CaptureResult(cfg, job, c).Ok? <==> MayAttach(job, c)
    ensures CaptureResult(cfg, job, c).Ok? ==> CaptureResult(cfg, job, c).value == CaptureWrite(job, job, c)
  {
    forall i | 0 <= i < |job.itemResults| ensures ItemId()(job.itemResults[i]) == job.itemResults[i].id {
    }
    forall i | 0 <= i < |job.attachments| ensures AttachmentId()(job.attachments[i]) == job.attachments[i].id {
    }
  }

  /** An image is attached exactly to an open job below its cap, and to a result of that job where one is named. */
  lemma AttachOutcome(env: Env, cfg: Config, job: Job, events: seq<Event>, c: JobProtocol.Capture)
    requires c.Attach? && IsReached(env, cfg, job, events, Capture(c))
    ensures
      var before, after := Run(env, cfg, job, events), Run(env, cfg, job, events + [Capture(c)]);
      after == if MayAttach(before, c)
               then before.(attachments := before.attachments + [Attachment(c.attachmentId, c.sha256Hex)])
               else before
  {
    var clock := Reached(env, cfg, job, events, Capture(c));
    var before := Run(env, cfg, job, events);
    AttachChecked(cfg, before, c);
    if MayAttach(before, c) {
      NewAttachment(before, c);
    }
  }
}

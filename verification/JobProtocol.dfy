/**
 The life of one job: assignment, result capture, submission, staged verification, return, recall and
 void, over the job row and its append-only approval steps. A request first reads the job and checks
 what it read (`Precheck`), then commits under a guard that is evaluated on the row of that moment.
 */
module JobProtocol {
  import opened Wrappers
  import opened Texts
  import opened CanonicalJobRecord

  // ---------------------------------------------------------------- the state machine table

  datatype JobStatus = Scheduled | Assigned | InProgress | Submitted | Verified | Archived | Voided

  datatype Transition = ASSIGN | START | SUBMIT | VERIFY_ADVANCE | VERIFY_FINAL | RETURN | RECALL | VOID

  function LegalTransitions(from: JobStatus): set<Transition> {
    match from
    case Scheduled => {ASSIGN, VOID}
    case Assigned => {ASSIGN, START, VOID}
    case InProgress => {ASSIGN, SUBMIT, VOID}
    case Submitted => {VERIFY_ADVANCE, VERIFY_FINAL, RETURN, RECALL, VOID}
    case Verified => {}
    case Archived => {VOID}
    case Voided => {}
  }

  predicate IsLegalTransition(from: JobStatus, t: Transition) {
    t in LegalTransitions(from)
  }

  /** Where a legal transition leads. */
  function Target(from: JobStatus, t: Transition): JobStatus {
    match t
    case ASSIGN => if from == Scheduled then Assigned else from
    case START => InProgress
    case SUBMIT => Submitted
    case VERIFY_ADVANCE => from
    case VERIFY_FINAL => Archived
    case RETURN => InProgress
    case RECALL => InProgress
    case VOID => Voided
  }

  // ---------------------------------------------------------------- rows

  type UserId = Text

  type Digest = int

  type Signature = int

  datatype StepAction = StepSubmitted | StepVerified | StepReturned | StepRecalled | StepVoided

  datatype Step = Step(
    id: Text, stageOrdinal: int, action: StepAction, actorId: UserId, onBehalfOfId: Option<UserId>,
    reason: Option<Text>, actedAt: Instant, contentHash: Digest, signature: Signature)

  /** A stored part; a removed one is kept and no longer active. */
  datatype PartRow = PartRow(part: PartUsed, active: bool)

  datatype Job = Job(
    id: Text, jobNumber: Text, assetId: Text, frequency: Text, revision: TemplateRevision,
    status: JobStatus,
    assignedTo: Option<UserId>,
    currentStageOrdinal: Option<int>,
    startedAt: Option<Instant>,
    submittedBy: Option<UserId>,
    submittedAt: Option<Instant>,
    verifiedAt: Option<Instant>,
    archivedAt: Option<Instant>,
    voidReason: Option<Text>,
    voidedBy: Option<UserId>,
    voidedAt: Option<Instant>,
    draftVersion: nat,
    itemResults: seq<ItemResult>,
    measurementResults: seq<MeasurementResult>,
    partRows: seq<PartRow>,
    attachments: seq<Attachment>,
    steps: seq<Step>)

  /** What the job's frozen revision and approval route say. The route's stages are 1 to `stageCount`. */
  datatype Config = Config(
    stageCount: nat, mandatoryItems: set<Text>, templateItems: set<Text>, templateMeasurements: set<Text>)

  /**
   The content hash of a record, absent where building the record throws, and the record signing key
   pair. `RecordIntegrity` supplies the hash that the service computes.
   */
  datatype Services = Services(
    contentHash: RecordInput -> Option<Digest>, sign: Digest -> Signature, verify: (Digest, Signature) -> bool)

  ghost predicate IsSigner(s: Services) {
    forall d: Digest :: s.verify(d, s.sign(d))
  }

  /** The key pair verifies what it signed. */
  type Env = s: Services | IsSigner(s)
    witness Services((r: RecordInput) => None, (d: Digest) => 0, (d: Digest, g: Signature) => true)

  // ---------------------------------------------------------------- the signed record

  function StatusText(s: JobStatus): Text {
    match s
    case Scheduled => Ascii("SCHEDULED")
    case Assigned => Ascii("ASSIGNED")
    case InProgress => Ascii("IN_PROGRESS")
    case Submitted => Ascii("SUBMITTED")
    case Verified => Ascii("VERIFIED")
    case Archived => Ascii("ARCHIVED")
    case Voided => Ascii("VOIDED")
  }

  function ActionText(a: StepAction): Text {
    match a
    case StepSubmitted => Ascii("submitted")
    case StepVerified => Ascii("verified")
    case StepReturned => Ascii("returned")
    case StepRecalled => Ascii("recalled")
    case StepVoided => Ascii("voidedAction")
  }

  /** The columns of a step that the signed record binds. */
  function BoundStep(): Step -> ApprovalStep {
    (s: Step) =>
      ApprovalStep(s.id, s.stageOrdinal, ActionText(s.action), s.actorId, s.onBehalfOfId, s.reason, s.actedAt)
  }

  /** The rows that a read shows. */
  function Shown<T>(rows: seq<T>, hidden: T -> bool): seq<T> {
    if rows == [] then []
    else (if hidden(rows[0]) then [] else [rows[0]]) + Shown(rows[1..], hidden)
  }

  function PartHidden(): PartRow -> bool {
    (r: PartRow) => !r.active
  }

  function PartOf(): PartRow -> PartUsed {
    (r: PartRow) => r.part
  }

  /** `partsUsed: { where: { active: true } }` */
  function ActiveParts(rows: seq<PartRow>): seq<PartUsed> {
    Map(PartOf(), Shown(rows, PartHidden()))
  }

  /** The record of what `snap` held, with status, submitter and approval steps given. */
  function RecordOf(snap: Job, status: JobStatus, submitter: Submitter, steps: seq<Step>): RecordInput {
    RecordInput(
      JobHeader(snap.id, snap.jobNumber, snap.assetId, snap.revision.id, snap.frequency, StatusText(status)),
      snap.revision, submitter, snap.itemResults, snap.measurementResults, ActiveParts(snap.partRows),
      snap.attachments,
      Map(BoundStep(), steps))
  }

  /** `buildCurrentCanonicalRecord` before the builder is called. */
  function CurrentRecord(job: Job): RecordInput {
    RecordOf(job, job.status, Submitter(job.submittedBy, job.submittedAt), job.steps)
  }

  // ---------------------------------------------------------------- requests

  /** `titleFilled`: the title has no blank for a machine number, or the job has one. */
  datatype Request =
    | Assign(actor: UserId, assignee: UserId, assignable: bool, now: Instant)
    | Submit(actor: UserId, titleFilled: bool, stepId: Text, now: Instant)
    | Verify(actor: UserId, eligible: bool, onBehalfOf: Option<UserId>, delegationActive: bool,
             comment: Option<Text>, stepId: Text, now: Instant)
    | Return(actor: UserId, reason: Text, stepId: Text, now: Instant)
    | Recall(actor: UserId, stepId: Text, now: Instant)
    | Void(actor: UserId, isAdmin: bool, reason: Text, voidedAt: Instant, stepId: Text, now: Instant)

  datatype Capture =
    | RecordItem(templateItemId: Text, status: Text, remark: Option<Text>, ifMatch: Option<int>, rowId: Text,
                 now: Instant)
    | RecordMeasurement(templateMeasurementId: Text, readingNumeric: Option<Text>, readingText: Option<Text>,
                        judgement: Text, ifMatch: Option<int>, rowId: Text, now: Instant)
    | RecordPart(partId: Text, partNo: Option<Text>, description: Text, quantity: Text, now: Instant)
    | UpsertPart(partId: Text, partNo: Option<Text>, description: Text, quantity: Text, active: bool,
                 ofOtherJob: bool, now: Instant)
    | Attach(attachmentId: Text, sha256Hex: Text, itemResultId: Option<Text>, isImage: bool, belowCap: bool,
             now: Instant)

  /** A capture that also writes the job row; parts and attachments leave it alone. */
  predicate IsResult(c: Capture) {
    c.RecordItem? || c.RecordMeasurement?
  }

  datatype Problem =
    | InvalidTransition | SelfApproval | Forbidden | IncompleteRecord | TitleNumberRequired | RecordImmutable
    | DraftConflict | NotFound | MalformedReading | RefusedByTrigger | AttachmentRejected | NotUnique

  function OutstandingMandatoryItems(cfg: Config, job: Job): set<Text> {
    cfg.mandatoryItems - set i | 0 <= i < |job.itemResults| :: job.itemResults[i].templateItemId
  }

  function StageOf(job: Job, default: int): int {
    if job.currentStageOrdinal.Some? then job.currentStageOrdinal.value else default
  }

  /** The checks a request makes on the job it read, before it opens its transaction. */
  function Precheck(cfg: Config, snap: Job, req: Request): Option<Problem> {
    match req
    case Assign(_, _, assignable, _) =>
      if !IsLegalTransition(snap.status, ASSIGN) then Some(InvalidTransition)
      else if !assignable then Some(Forbidden)
      else None
    case Submit(_, titleFilled, _, _) =>
      if snap.status != InProgress then Some(InvalidTransition)
      else if OutstandingMandatoryItems(cfg, snap) != {} then Some(IncompleteRecord)
      else if !titleFilled then Some(TitleNumberRequired)
      else None
    case Verify(actor, eligible, onBehalfOf, delegationActive, _, _, _) =>
      if !IsLegalTransition(snap.status, VERIFY_ADVANCE) then Some(InvalidTransition)
      else if snap.submittedBy == Some(actor) then Some(SelfApproval)
      else if !(1 <= StageOf(snap, 1) <= cfg.stageCount) then Some(InvalidTransition)
      else if !eligible || (onBehalfOf.Some? && !delegationActive) then Some(Forbidden)
      else None
    case Return(_, _, _, _) =>
      if !IsLegalTransition(snap.status, RETURN) then Some(InvalidTransition) else None
    case Recall(actor, _, _) =>
      if !IsLegalTransition(snap.status, RECALL) then Some(InvalidTransition)
      else if snap.submittedBy != Some(actor) then Some(Forbidden)
      else None
    case Void(_, isAdmin, _, _, _, _) =>
      if !IsLegalTransition(snap.status, VOID) then Some(InvalidTransition)
      else if snap.status == Archived && !isAdmin then Some(Forbidden)
      else None
  }

  predicate IsBreak(s: Step) {
    s.action == StepReturned || s.action == StepRecalled
  }

  /** The latest `actedAt` of a returned or recalled step. */
  function LastCycleBreak(steps: seq<Step>): Option<Instant> {
    if steps == [] then None
    else
      var s := steps[|steps| - 1];
      var earlier := LastCycleBreak(steps[..|steps| - 1]);
      if IsBreak(s) && (earlier.None? || s.actedAt > earlier.value) then Some(s.actedAt) else earlier
  }

  predicate AlreadyVerifiedThisCycle(steps: seq<Step>, actor: UserId) {
    var lastBreak := LastCycleBreak(steps);
    exists i | 0 <= i < |steps| ::
      && steps[i].action == StepVerified
      && steps[i].actorId == actor
      && (lastBreak.None? || steps[i].actedAt > lastBreak.value)
  }

  function NewStep(id: Text, stage: int, action: StepAction, actor: UserId, onBehalfOf: Option<UserId>,
                   reason: Option<Text>, now: Instant): Step {
    Step(id, stage, action, actor, onBehalfOf, reason, now, 0, 0)
  }

  /** The updated row, and for a signing request what is signed: status, submitter and the new step. */
  datatype Update =
    | Unsigned(row: Job)
    | Signed(row: Job, status: JobStatus, submitter: Submitter, step: Step)

  /** The guarded update of the current row `cur` on behalf of a request that read `snap`. */
  function GuardedUpdate(cfg: Config, cur: Job, snap: Job, req: Request): Result<Update, Problem> {
    match req
    case Assign(_, assignee, _, _) =>
      if cur.status != snap.status then Err(InvalidTransition)
      else
        Ok(Unsigned(cur.(assignedTo := Some(assignee),
                         status := if snap.status == Scheduled then Assigned else cur.status)))
    case Submit(actor, _, stepId, now) =>
      if cur.status != InProgress then Err(InvalidTransition)
      else
        Ok(Signed(cur.(status := Submitted, submittedAt := Some(now), submittedBy := Some(actor),
                       currentStageOrdinal := Some(1)),
                  Submitted, Submitter(Some(actor), Some(now)),
                  NewStep(stepId, 0, StepSubmitted, actor, None, None, now)))
    case Verify(actor, _, onBehalfOf, _, comment, stepId, now) =>
      var stage := StageOf(snap, 1);
      var isFinal := stage >= cfg.stageCount;
      if cur.status != Submitted || cur.currentStageOrdinal != Some(stage) then Err(InvalidTransition)
      else if AlreadyVerifiedThisCycle(cur.steps, actor) then Err(SelfApproval)
      else
        Ok(Signed(if isFinal then cur.(status := Archived, verifiedAt := Some(now), archivedAt := Some(now),
                                       currentStageOrdinal := None)
                  else cur.(currentStageOrdinal := Some(stage + 1)),
                  if isFinal then Archived else Submitted, Submitter(snap.submittedBy, snap.submittedAt),
                  NewStep(stepId, stage, StepVerified, actor, onBehalfOf, comment, now)))
    case Return(actor, reason, stepId, now) =>
      if cur.status != Submitted then Err(Forbidden)
      else
        Ok(Signed(cur.(status := InProgress, currentStageOrdinal := None),
                  InProgress, Submitter(snap.submittedBy, snap.submittedAt),
                  NewStep(stepId, StageOf(snap, 1), StepReturned, actor, None, Some(reason), now)))
    case Recall(actor, stepId, now) =>
      if cur.status != Submitted then Err(Forbidden)
      else
        Ok(Signed(cur.(status := InProgress, currentStageOrdinal := None),
                  InProgress, Submitter(snap.submittedBy, snap.submittedAt),
                  NewStep(stepId, StageOf(snap, 1), StepRecalled, actor, None, None, now)))
    case Void(actor, _, reason, voidedAt, stepId, now) =>
      if (if snap.status == Archived then cur.status != Archived
          else cur.status !in {Scheduled, Assigned, InProgress, Submitted}) then Err(Forbidden)
      else
        Ok(Signed(cur.(status := Voided, voidReason := Some(reason), voidedBy := Some(actor),
                       voidedAt := Some(voidedAt)),
                  Voided, Submitter(snap.submittedBy, snap.submittedAt),
                  NewStep(stepId, StageOf(snap, 0), StepVoided, actor, None, Some(reason), now)))
  }

  /** The row with a step appended, its content hash signed. */
  function Append(env: Env, row: Job, step: Step, contentHash: Digest): Job {
    row.(steps := row.steps + [step.(contentHash := contentHash, signature := env.sign(contentHash))])
  }

  /** The insert trigger of the approval steps: a verified step is not by the submitter the row names. */
  predicate IsOwnVerification(row: Job, step: Step) {
    step.action == StepVerified && row.submittedBy == Some(step.actorId)
  }

  /** The rest of the transaction: the signed step over what `snap` held. */
  function Finish(env: Env, snap: Job, u: Update): Result<Job, Problem> {
    match u
    case Unsigned(row) => Ok(row)
    case Signed(row, status, submitter, step) =>
      match env.contentHash(RecordOf(snap, status, submitter, row.steps + [step]))
      case None => Err(MalformedReading)
      case Some(d) => if IsOwnVerification(row, step) then Err(RefusedByTrigger) else Ok(Append(env, row, step, d))
  }

  function Commit(env: Env, cfg: Config, cur: Job, snap: Job, req: Request): Result<Job, Problem> {
    match GuardedUpdate(cfg, cur, snap, req)
    case Err(p) => Err(p)
    case Ok(u) => Finish(env, snap, u)
  }

  // ---------------------------------------------------------------- capture of results, parts and attachments

  /** A write to the row with a given key: an update where there is one, a new row at the end otherwise. */
  datatype RowWrite<!T> = RowWrite(key: Text, update: T -> T, create: T)

  function Upsert<T>(rows: seq<T>, key: T -> Text, w: RowWrite<T>): seq<T> {
    if rows == [] then [w.create]
    else if key(rows[0]) == w.key then [w.update(rows[0])] + rows[1..]
    else [rows[0]] + Upsert(rows[1..], key, w)
  }

  function ItemKey(): ItemResult -> Text {
    (r: ItemResult) => r.templateItemId
  }

  function MeasurementKey(): MeasurementResult -> Text {
    (r: MeasurementResult) => r.templateMeasurementId
  }

  function ItemWrite(c: Capture): RowWrite<ItemResult>
    requires c.RecordItem?
  {
    RowWrite(c.templateItemId, (r: ItemResult) => r.(status := c.status, remark := c.remark),
             ItemResult(c.rowId, c.templateItemId, c.status, c.remark))
  }

  function MeasurementWrite(c: Capture): RowWrite<MeasurementResult>
    requires c.RecordMeasurement?
  {
    RowWrite(c.templateMeasurementId,
             (r: MeasurementResult) =>
               r.(readingNumeric := c.readingNumeric, readingText := c.readingText, judgement := c.judgement),
             MeasurementResult(c.rowId, c.templateMeasurementId, c.readingNumeric, c.readingText, c.judgement))
  }

  function PartKey(): PartRow -> Text {
    (r: PartRow) => r.part.id
  }

  function PartWrite(c: Capture): RowWrite<PartRow>
    requires c.RecordPart? || c.UpsertPart?
  {
    var active := c.RecordPart? || c.active;
    RowWrite(c.partId, (r: PartRow) => PartRow(PartUsed(r.part.id, c.partNo, c.description, c.quantity), active),
             PartRow(PartUsed(c.partId, c.partNo, c.description, c.quantity), active))
  }

  function AttachmentWrite(c: Capture): RowWrite<Attachment>
    requires c.Attach?
  {
    RowWrite(c.attachmentId, (a: Attachment) => a.(sha256Hex := c.sha256Hex), Attachment(c.attachmentId, c.sha256Hex))
  }

  predicate InUse<T>(rows: seq<T>, key: T -> Text, k: Text) {
    exists i | 0 <= i < |rows| :: key(rows[i]) == k
  }

  /** The checks a capture makes on the job it read. */
  function CapturePrecheck(cfg: Config, snap: Job, c: Capture): Option<Problem> {
    if c.Attach? && !c.isImage then Some(AttachmentRejected)
    else if snap.status == Archived then Some(RecordImmutable)
    else if snap.status != Assigned && snap.status != InProgress then Some(InvalidTransition)
    else
      match c
      case RecordItem(templateItemId, _, _, ifMatch, _, _) =>
        if ifMatch.Some? && ifMatch.value != snap.draftVersion then Some(DraftConflict)
        else if templateItemId !in cfg.templateItems then Some(NotFound)
        else None
      case RecordMeasurement(templateMeasurementId, _, _, _, ifMatch, _, _) =>
        if ifMatch.Some? && ifMatch.value != snap.draftVersion then Some(DraftConflict)
        else if templateMeasurementId !in cfg.templateMeasurements then Some(NotFound)
        else None
      case RecordPart(_, _, _, _, _) => None
      case UpsertPart(_, _, _, _, _, _, _) => None
      case Attach(_, _, itemResultId, _, belowCap, _) =>
        if itemResultId.Some? && !InUse(snap.itemResults, ItemId(), itemResultId.value) then Some(NotFound)
        else if !belowCap then Some(AttachmentRejected)
        else None
  }

  /** `transitionToInProgress`: the row's status is written from the one that was read, without a guard. */
  function Started(cur: Job, snap: Job, now: Instant): Job {
    cur.(status := if snap.status == Assigned then InProgress else cur.status,
         startedAt := if snap.status == Assigned then Some(now) else cur.startedAt,
         draftVersion := cur.draftVersion + 1)
  }

  /** What a capture's transaction writes. */
  function CaptureWrite(cur: Job, snap: Job, c: Capture): Job {
    match c
    case RecordItem(_, _, _, _, _, _) =>
      Started(cur.(itemResults := Upsert(cur.itemResults, ItemKey(), ItemWrite(c))), snap, c.now)
    case RecordMeasurement(_, _, _, _, _, _, _) =>
      Started(cur.(measurementResults := Upsert(cur.measurementResults, MeasurementKey(), MeasurementWrite(c))),
              snap, c.now)
    case RecordPart(_, _, _, _, _) => cur.(partRows := Upsert(cur.partRows, PartKey(), PartWrite(c)))
    case UpsertPart(_, _, _, _, _, _, _) => cur.(partRows := Upsert(cur.partRows, PartKey(), PartWrite(c)))
    case Attach(_, _, _, _, _, _) => cur.(attachments := Upsert(cur.attachments, AttachmentId(), AttachmentWrite(c)))
  }

  /**
   What the database refuses: a result on an archived or voided row, by the update trigger of the job table,
   and a second row of one id. Nothing guards parts and attachments against the status.
   */
  function CaptureCommit(cur: Job, snap: Job, c: Capture): Result<Job, Problem> {
    if IsResult(c) && (cur.status == Archived || cur.status == Voided) then Err(RefusedByTrigger)
    else if c.RecordPart? && InUse(cur.partRows, PartKey(), c.partId) then Err(NotUnique)
    else if c.UpsertPart? && c.ofOtherJob then Err(NotFound)
    else if c.Attach? && InUse(cur.attachments, AttachmentId(), c.attachmentId) then Err(NotUnique)
    else Ok(CaptureWrite(cur, snap, c))
  }

  /** One capture, read and write together. */
  function CaptureResult(cfg: Config, job: Job, c: Capture): Result<Job, Problem> {
    match CapturePrecheck(cfg, job, c)
    case Some(p) => Err(p)
    case None => CaptureCommit(job, job, c)
  }
}

/**
 Parts and attachments that read a job while it could be written and land when it cannot any more: no
 status refuses them, so they change what is signed of a submitted, archived or voided job.
 */
module LateCaptures {
  import opened Wrappers
  import opened Texts
  import opened CanonicalSerialiser
  import opened CanonicalJobRecord
  import opened JobProtocol
  import opened JobRuns
  import opened SplitRuns
  import opened RecordIntegrity
  import opened InterleavedSignatures
  import opened RevisedRows
  import opened StaleSignatures
  import opened LawfulRuns
  import opened InterleavedIntegrity

  /** The writes are parts and attachments that read `w` or an earlier world while it could be written. */
  ghost predicate AllLate(w: World, ws: seq<Write>) {
    forall i | 0 <= i < |ws| :: ws[i].Captured? && !IsResult(ws[i].capture) && ReadWritable(w, ws[i].capture)
  }

  /**
   What is signed of the rows of an archived or voided job stays the same exactly when the parts and
   attachments that read it while it could be written, and land since, repeat what it held.
   */
  lemma ArchivedRowsKeptIff(nfc: Normaliser, env: Env, cfg: Config, w: World, moves: seq<Move>)
    requires AllChecked(cfg, w) && w.job.status in {Archived, Voided}
    requires ReadableRows(w.job) && TableKeys(RunMoves(env, cfg, w, moves).job)
    ensures AllLate(w, Writes(env, cfg, w, moves))
    ensures SameSignedRows(nfc, w.job, RunMoves(env, cfg, w, moves).job)
            <==> Repeats(nfc, w.job, Writes(env, cfg, w, moves))
  {
    ArchivedWrites(env, cfg, w, moves);
    RunHolds(env, cfg, w, moves);
    SignedRowsKeptIff(nfc, w.job, Writes(env, cfg, w, moves), RunMoves(env, cfg, w, moves).job);
  }

  /** Every row of an archived or voided job is kept while no part and no attachment lands. */
  lemma {:induction false} ArchivedDataKept(env: Env, cfg: Config, w: World, moves: seq<Move>)
    requires AllChecked(cfg, w) && w.job.status in {Archived, Voided}
    requires forall n: nat | n < |moves| :: !LandsUnguarded(After(env, cfg, w, moves, n), moves[n])
    ensures SameCaptured(w.job, RunMoves(env, cfg, w, moves).job)
  {
    if moves != [] {
      var last := |moves| - 1;
      var before := After(env, cfg, w, moves, last);
      forall n: nat | n < last ensures !LandsUnguarded(After(env, cfg, w, moves[..last], n), moves[..last][n]) {
        AfterPrefix(env, cfg, w, moves, last, n);
      }
      ArchivedDataKept(env, cfg, w, moves[..last]);
      TerminalStatusesHold(env, cfg, w, moves[..last]);
      ArchivedWrittenIff(env, cfg, before, moves[last]);
      QuietKeeps(env, cfg, before, moves[last]);
    }
  }

  // ---------------------------------------------------------------- an archived record that changes

  /** An attachment that is uploaded while the job is submitted, verified and archived. */
  function LateAttachment(
    c: JobProtocol.Capture, a: JobProtocol.Capture, s: JobProtocol.Request, v: JobProtocol.Request): seq<Move>
  {
    BeforeUpload(c, a, s, v) + [End(1)]
  }

  function BeforeUpload(
    c: JobProtocol.Capture, a: JobProtocol.Capture, s: JobProtocol.Request, v: JobProtocol.Request): seq<Move>
  {
    [BeginCapture(9, c), End(9)] + [BeginCapture(1, a)] + [Begin(0, s), End(0)] + [Begin(0, v), End(0)]
  }

  ghost predicate Uploadable(a: JobProtocol.Capture) {
    a.Attach? && a.isImage && a.belowCap && a.itemResultId.None?
  }

  lemma SubmitsAndArchives(env: Env, cfg: Config, job: Job, s: JobProtocol.Request, v: JobProtocol.Request)
    returns (snap: Job, archived: Job)
    requires HashesPlainRecords(env) && cfg.mandatoryItems == {} && cfg.stageCount == 1
    requires Plain(job) && job.status == InProgress && job.steps == []
    requires s.Submit? && s.titleFilled && v.Verify? && v.eligible && v.onBehalfOf.None? && v.actor != s.actor
    ensures Precheck(cfg, job, s).None? && Commit(env, cfg, job, job, s) == Ok(snap)
    ensures Precheck(cfg, snap, v).None? && Commit(env, cfg, snap, snap, v) == Ok(archived)
    ensures archived.status == Archived && SameCaptured(job, archived) && NewestSigned(env, archived)
  {
    var t1, t2;
    snap, t1 := Submits(env, cfg, job, s);
    SubmitWrites(env, cfg, job, job, s);
    assert snap.steps == [t1];
    archived, t2 := Verifies(env, cfg, snap, snap, 1, v);
    CommitKeepsData(env, cfg, snap, snap, v);
    AtomicIsCurrent(env, cfg, snap, v);
  }

  lemma AtomicIsCurrent(env: Env, cfg: Config, job: Job, req: JobProtocol.Request)
    requires req.Verify? && Commit(env, cfg, job, job, req).Ok?
    ensures NewestSigned(env, Commit(env, cfg, job, job, req).value)
  {
    var u := GuardedUpdate(cfg, job, job, req).value;
    var d := env.contentHash(RecordOf(job, u.status, u.submitter, u.row.steps + [u.step])).value;
    SignedIsUpdatedRow(cfg, job, req, u, u.step.(contentHash := d, signature := env.sign(d)));
  }

  /** The run up to the archiving, with the upload still in flight. */
  lemma LateAttachmentBefore(
    env: Env, cfg: Config, w: World, c: JobProtocol.Capture, a: JobProtocol.Capture, s: JobProtocol.Request,
    v: JobProtocol.Request, job0: Job, snap: Job, archived: Job)
    requires w.pending == map[] && w.job.status == Assigned && Recordable(cfg, c) && Uploadable(a)
    requires job0 == CaptureWrite(w.job, w.job, c)
    requires Precheck(cfg, job0, s).None? && Commit(env, cfg, job0, job0, s) == Ok(snap)
    requires Precheck(cfg, snap, v).None? && Commit(env, cfg, snap, snap, v) == Ok(archived)
    ensures Reaches(env, cfg, w, BeforeUpload(c, a, s, v), World(archived, map[1 := PendingCapture(job0, a)]))
  {
    var moves := [BeginCapture(9, c), End(9)];
    var pending: map<nat, Pending> := map[1 := PendingCapture(job0, a)];
    ReachesCapture(env, cfg, w, 9, c);
    ReachesNext(env, cfg, w, moves, World(job0, map[]), BeginCapture(1, a));
    moves := moves + [BeginCapture(1, a)];
    ReachesRequest(env, cfg, w, moves, World(job0, pending), 0, s, snap);
    moves := moves + [Begin(0, s), End(0)];
    ReachesRequest(env, cfg, w, moves, World(snap, pending), 0, v, archived);
  }

  lemma UploadLands(env: Env, cfg: Config, archived: Job, read: Job, a: JobProtocol.Capture)
    requires Uploadable(a) && archived.attachments == [] && archived.status == Archived
    ensures
      var w := World(archived, map[1 := PendingCapture(read, a)]);
      && !StaleWrite(w, End(1)) && Next(env, cfg, w, End(1)).job == CaptureWrite(archived, read, a)
      && CaptureWrite(archived, read, a) == archived.(attachments := [Attachment(a.attachmentId, a.sha256Hex)])
  {
  }

  /** An archived job, every move lawful, that holds one attachment more than was signed, and fails its check. */
  lemma LateAttachmentShows(
    nfc: Normaliser, iso: DateFormat, sha256: seq<Byte> -> Digest, env: Env, cfg: Config, w: World,
    c: JobProtocol.Capture, a: JobProtocol.Capture, s: JobProtocol.Request, v: JobProtocol.Request)
    requires CollisionFree(sha256) && env.contentHash == ContentHash(nfc, iso, sha256)
    requires cfg.mandatoryItems == {} && cfg.stageCount == 1 && Recordable(cfg, c) && Uploadable(a)
    requires IsFresh(w) && w.job.status == Assigned && Plain(w.job) && w.job.attachments == []
    requires s.Submit? && s.titleFilled && v.Verify? && v.eligible && v.onBehalfOf.None? && v.actor != s.actor
    ensures Timely(env, cfg, w, LateAttachment(c, a, s, v))
    ensures
      var before := RunMoves(env, cfg, w, BeforeUpload(c, a, s, v)).job;
      var after := RunMoves(env, cfg, w, LateAttachment(c, a, s, v)).job;
      && before.status == Archived && NewestSigned(env, before)
      && after == before.(attachments := [Attachment(a.attachmentId, a.sha256Hex)])
      && !NewestSigned(env, after) && !Intact(env, after)
  {
    ContentHashOfPlainRecords(nfc, iso, sha256, env);
    var job0 := CaptureWrite(w.job, w.job, c);
    var snap, archived := SubmitsAndArchives(env, cfg, job0, s, v);
    LateAttachmentBefore(env, cfg, w, c, a, s, v, job0, snap, archived);
    UploadLands(env, cfg, archived, job0, a);
    ReachesNext(env, cfg, w, BeforeUpload(c, a, s, v), World(archived, map[1 := PendingCapture(job0, a)]), End(1));
    CountShows(nfc, iso, sha256, CurrentRecord(archived), CurrentRecord(CaptureWrite(archived, job0, a)));
  }
}

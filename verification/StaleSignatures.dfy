/**
 When the newest signature of a submitted, archived or voided job is of the record as it stands, over any
 interleaving of requests and captures: exactly when what committed since the signer's read repeats what
 was read. A submission whose results are recorded anew while it is in flight is signed stale.
 */
module StaleSignatures {
  import opened Wrappers
  import opened Texts
  import opened CanonicalSerialiser
  import opened CanonicalJobRecord
  import opened JobRecordEquality
  import opened RecordUpToNfc
  import opened JobProtocol
  import opened JobRuns
  import opened SplitRuns
  import opened RecordIntegrity
  import opened InterleavedSignatures
  import opened RevisedRows

  // ---------------------------------------------------------------- when the newest signature is current

  /**
   Nothing that committed since the read changed what is signed: the newest write to each captured row repeats
   what was read, and so does the newest submission, except where the signer is that submission.
   */
  ghost predicate Unrevised(nfc: Normaliser, req: JobProtocol.Request, snap: Job, ws: seq<Write>) {
    && Repeats(nfc, snap, ws)
    && (req.Submit?
        || NormalSubmitter(nfc, LastSubmitter(SubmitterOf(snap), ws)) == NormalSubmitter(nfc, SubmitterOf(snap)))
  }

  /** The newest step of `job` signs `read`, which a request `req` read from `snap`; `ws` came after. */
  ghost predicate SignedOver(
    env: Env, snap: Job, req: JobProtocol.Request, ws: seq<Write>, job: Job, read: RecordInput)
  {
    && job.steps != [] && env.contentHash(read) == Some(job.steps[|job.steps| - 1].contentHash)
    && Rewritten(snap, ws, job) && Shows(read, snap) && SameSetting(read, CurrentRecord(job))
    && read.submitter == (if req.Submit? then SubmitterOf(job) else SubmitterOf(snap))
    && SubmitterOf(job) == LastSubmitter(SubmitterOf(snap), ws)
  }

  /** The record that was signed, and the row in the end as the writes since then have left it. */
  lemma SignedAndHeld(env: Env, cfg: Config, w: World, moves: seq<Move>, b: nat, e: nat)
    returns (read: RecordInput)
    requires AllChecked(cfg, w) && WroteNewest(env, cfg, w, moves, b, e)
    requires Frozen(RunMoves(env, cfg, w, moves).job.status)
    ensures
      var snap := After(env, cfg, w, moves, b);
      SignedOver(env, snap.job, moves[b].req, Writes(env, cfg, snap, moves[b..]),
                 RunMoves(env, cfg, w, moves).job, read)
  {
    var snap := After(env, cfg, w, moves, b);
    var u, d := NewestRecord(env, cfg, w, moves, b, e);
    var steps := After(env, cfg, w, moves, e).job.steps;
    read := RecordOf(snap.job, u.status, u.submitter, steps + [u.step]);
    BoundAppend(steps, u.step, u.step.(contentHash := d, signature := env.sign(d)));
    RunHolds(env, cfg, snap, moves[b..]);
    RunSplits(env, cfg, w, moves, b);
  }

  lemma SignedOverCurrentIff(
    nfc: Normaliser, iso: DateFormat, sha256: seq<Byte> -> Digest, env: Env, snap: Job, req: JobProtocol.Request,
    ws: seq<Write>, job: Job, read: RecordInput, held: RecordInput)
    requires CollisionFree(sha256) && env.contentHash == ContentHash(nfc, iso, sha256)
    requires SignedOver(env, snap, req, ws, job, read) && held == CurrentRecord(job) && TableKeys(job)
    ensures NewestSigned(env, job) <==> Unrevised(nfc, req, snap, ws)
  {
    HashKeptIff(nfc, iso, sha256, snap, ws, job, read, held);
  }

  /**
   Whatever interleaves, the newest signature of a submitted, archived or voided job is of the record as
   it stands exactly when nothing that committed since the signer's read changed what it signed.
   */
  lemma NewestSignatureCurrentIff(
    nfc: Normaliser, iso: DateFormat, sha256: seq<Byte> -> Digest, env: Env, cfg: Config, w: World,
    moves: seq<Move>, b: nat, e: nat)
    requires CollisionFree(sha256) && env.contentHash == ContentHash(nfc, iso, sha256)
    requires AllChecked(cfg, w) && WroteNewest(env, cfg, w, moves, b, e)
    requires Frozen(RunMoves(env, cfg, w, moves).job.status)
    requires TableKeys(RunMoves(env, cfg, w, moves).job)
    ensures
      var snap := After(env, cfg, w, moves, b);
      NewestSigned(env, RunMoves(env, cfg, w, moves).job)
      <==> Unrevised(nfc, moves[b].req, snap.job, Writes(env, cfg, snap, moves[b..]))
  {
    var snap, job := After(env, cfg, w, moves, b), RunMoves(env, cfg, w, moves).job;
    var read := SignedAndHeld(env, cfg, w, moves, b, e);
    SignedOverCurrentIff(
      nfc, iso, sha256, env, snap.job, moves[b].req, Writes(env, cfg, snap, moves[b..]), job, read, CurrentRecord(job));
  }

  ghost predicate OnlySubmissions(ws: seq<Write>) {
    forall i | 0 <= i < |ws| :: ws[i].Resubmitted?
  }

  lemma {:induction false} NoCaptures(ws: seq<Write>)
    requires OnlySubmissions(ws)
    ensures ItemWrites(ws) == [] && MeasurementWrites(ws) == []
    ensures PartWrites(ws) == [] && AttachmentWrites(ws) == []
  {
    if ws != [] {
      NoCaptures(ws[..|ws| - 1]);
    }
  }

  lemma QuietUnrevised(nfc: Normaliser, req: JobProtocol.Request, snap: Job, ws: seq<Write>)
    requires OnlySubmissions(ws) && (req.Submit? || ws == [])
    ensures Unrevised(nfc, req, snap, ws)
  {
    NoCaptures(ws);
  }

  /**
   A run in which no capture commits after the newest signer's read, and no submission but its own, ends
   with a current signature.
   */
  lemma QuietSignatureIsCurrent(
    nfc: Normaliser, iso: DateFormat, sha256: seq<Byte> -> Digest, env: Env, cfg: Config, w: World,
    moves: seq<Move>, b: nat, e: nat)
    requires CollisionFree(sha256) && env.contentHash == ContentHash(nfc, iso, sha256)
    requires AllChecked(cfg, w) && WroteNewest(env, cfg, w, moves, b, e)
    requires Frozen(RunMoves(env, cfg, w, moves).job.status)
    requires TableKeys(RunMoves(env, cfg, w, moves).job)
    requires
      var ws := Writes(env, cfg, After(env, cfg, w, moves, b), moves[b..]);
      OnlySubmissions(ws) && (moves[b].req.Submit? || ws == [])
    ensures NewestSigned(env, RunMoves(env, cfg, w, moves).job)
  {
    var snap := After(env, cfg, w, moves, b);
    QuietUnrevised(nfc, moves[b].req, snap.job, Writes(env, cfg, snap, moves[b..]));
    NewestSignatureCurrentIff(nfc, iso, sha256, env, cfg, w, moves, b, e);
  }

  // ---------------------------------------------------------------- a submission that is signed stale

  /** The hash that the service computes covers the records that `SplitRuns` needs. */
  lemma ContentHashOfPlainRecords(nfc: Normaliser, iso: DateFormat, sha256: seq<Byte> -> Digest, env: Env)
    requires env.contentHash == ContentHash(nfc, iso, sha256) && CollisionFree(sha256)
    ensures HashesPlainRecords(env)
  {
    forall r: RecordInput | r.measurementResults == [] && r.partsUsed == [] ensures env.contentHash(r).Some? {
      ContentHashIff(nfc, iso, sha256, r, r);
    }
  }

  /** A result is recorded, the job submitted, and the result recorded anew before the submission commits. */
  function StaleSubmission(c1: JobProtocol.Capture, c2: JobProtocol.Capture, submit: JobProtocol.Request): seq<Move> {
    [BeginCapture(1, c1), End(1), BeginCapture(2, c2), Begin(0, submit), End(2), End(0)]
  }

  ghost predicate Bare(job: Job) {
    job.itemResults == [] && job.measurementResults == [] && job.partRows == [] && job.attachments == []
  }

  /** What a first submission of `read` commits to the row `cur`. */
  lemma FirstSubmission(env: Env, cfg: Config, cur: Job, snap: Job, req: JobProtocol.Request)
    returns (read: RecordInput)
    requires HashesPlainRecords(env) && req.Submit? && cur.status == InProgress && cur.steps == []
    requires cur == snap.(itemResults := cur.itemResults, draftVersion := cur.draftVersion)
    requires snap.measurementResults == [] && snap.partRows == [] && snap.attachments == []
    ensures Commit(env, cfg, cur, snap, req).Ok?
    ensures
      var job := Commit(env, cfg, cur, snap, req).value;
      && job.status == Submitted && |job.steps| == 1
      && env.contentHash(read) == Some(job.steps[0].contentHash)
      && read.itemResults == snap.itemResults && read.measurementResults == [] && read.partsUsed == []
      && read.attachments == [] && |read.approvalSteps| == 1 && read.approvalSteps[0].id == req.stepId
      && CurrentRecord(job) == read.(itemResults := cur.itemResults)
  {
    var u := GuardedUpdate(cfg, cur, snap, req).value;
    read := RecordOf(snap, u.status, u.submitter, [u.step]);
    assert u.row.steps + [u.step] == [u.step];
    var d := env.contentHash(read).value;
    BoundAppend([], u.step, u.step.(contentHash := d, signature := env.sign(d)));
  }

  /** What the first capture leaves. */
  lemma FirstCapture(env: Env, cfg: Config, w: World, c: JobProtocol.Capture)
    requires IsFresh(w) && w.job.status == Assigned && Recordable(cfg, c)
    ensures
      var w1 := Next(env, cfg, w, BeginCapture(1, c));
      var w2 := Next(env, cfg, w1, End(1));
      !StaleWrite(w1, End(1)) && w2 == World(CaptureWrite(w.job, w.job, c), map[])
  {
  }

  /** What the second capture leaves, and what the submission read meanwhile. */
  lemma SecondCapture(env: Env, cfg: Config, w: World, c: JobProtocol.Capture, submit: JobProtocol.Request)
    requires w.pending == map[] && w.job.status == InProgress && Recordable(cfg, c)
    requires submit.Submit? && submit.titleFilled
    requires cfg.mandatoryItems == {}
    ensures
      var w3 := Next(env, cfg, w, BeginCapture(2, c));
      var w4 := Next(env, cfg, w3, Begin(0, submit));
      var w5 := Next(env, cfg, w4, End(2));
      && !StaleWrite(w4, End(2)) && !StaleWrite(w5, End(0))
      && w5 == World(CaptureWrite(w.job, w.job, c), map[0 := PendingRequest(w.job, submit)])
  {
    assert OutstandingMandatoryItems(cfg, w.job) == {};
  }

  ghost predicate TimelyAt(env: Env, cfg: Config, w: World, moves: seq<Move>, n: nat) {
    n < |moves| ==> !StaleWrite(After(env, cfg, w, moves, n), moves[n])
  }

  lemma FirstTwoMoves(
    env: Env, cfg: Config, w: World, c1: JobProtocol.Capture, c2: JobProtocol.Capture, submit: JobProtocol.Request)
    requires IsFresh(w) && w.job.status == Assigned && Recordable(cfg, c1)
    ensures
      var moves := StaleSubmission(c1, c2, submit);
      && TimelyAt(env, cfg, w, moves, 0) && TimelyAt(env, cfg, w, moves, 1)
      && After(env, cfg, w, moves, 2) == World(CaptureWrite(w.job, w.job, c1), map[])
  {
    var moves := StaleSubmission(c1, c2, submit);
    assert moves[..0] == [];
    AfterNext(env, cfg, w, moves, 0);
    AfterNext(env, cfg, w, moves, 1);
    FirstCapture(env, cfg, w, c1);
  }

  lemma ThreeMoreMoves(
    env: Env, cfg: Config, w: World, c1: JobProtocol.Capture, c2: JobProtocol.Capture, submit: JobProtocol.Request,
    read: Job)
    requires cfg.mandatoryItems == {} && read.status == InProgress && Recordable(cfg, c2)
    requires submit.Submit? && submit.titleFilled
    requires After(env, cfg, w, StaleSubmission(c1, c2, submit), 2) == World(read, map[])
    ensures
      var moves := StaleSubmission(c1, c2, submit);
      && TimelyAt(env, cfg, w, moves, 2) && TimelyAt(env, cfg, w, moves, 3)
      && TimelyAt(env, cfg, w, moves, 4) && TimelyAt(env, cfg, w, moves, 5)
      && After(env, cfg, w, moves, 5) == World(CaptureWrite(read, read, c2), map[0 := PendingRequest(read, submit)])
  {
    var moves := StaleSubmission(c1, c2, submit);
    AfterNext(env, cfg, w, moves, 2);
    AfterNext(env, cfg, w, moves, 3);
    AfterNext(env, cfg, w, moves, 4);
    SecondCapture(env, cfg, World(read, map[]), c2, submit);
  }

  lemma BothCaptures(
    env: Env, cfg: Config, w: World, c1: JobProtocol.Capture, c2: JobProtocol.Capture, submit: JobProtocol.Request)
    returns (read: Job, held: Job)
    requires cfg.mandatoryItems == {} && IsFresh(w) && w.job.status == Assigned
    requires Recordable(cfg, c1) && Recordable(cfg, c2) && submit.Submit? && submit.titleFilled
    ensures read == CaptureWrite(w.job, w.job, c1) && held == CaptureWrite(read, read, c2)
    ensures After(env, cfg, w, StaleSubmission(c1, c2, submit), 5)
            == World(held, map[0 := PendingRequest(read, submit)])
    ensures Timely(env, cfg, w, StaleSubmission(c1, c2, submit))
  {
    var moves := StaleSubmission(c1, c2, submit);
    FirstTwoMoves(env, cfg, w, c1, c2, submit);
    read := CaptureWrite(w.job, w.job, c1);
    ThreeMoreMoves(env, cfg, w, c1, c2, submit, read);
    held := CaptureWrite(read, read, c2);
    forall n: nat | n < |moves| ensures TimelyAt(env, cfg, w, moves, n) {
    }
  }

  /** The run's end: the row holds the second result, the newest step signs the first. */
  lemma StaleSubmissionEnds(
    env: Env, cfg: Config, w: World, c1: JobProtocol.Capture, c2: JobProtocol.Capture, submit: JobProtocol.Request)
    returns (read: RecordInput)
    requires HashesPlainRecords(env) && cfg.mandatoryItems == {}
    requires IsFresh(w) && w.job.status == Assigned && Bare(w.job)
    requires Recordable(cfg, c1) && Recordable(cfg, c2) && c2.templateItemId == c1.templateItemId
    requires submit.Submit? && submit.titleFilled
    ensures
      var job := RunMoves(env, cfg, w, StaleSubmission(c1, c2, submit)).job;
      var first := ItemResult(c1.rowId, c1.templateItemId, c1.status, c1.remark);
      && job.status == Submitted && |job.steps| == 1
      && env.contentHash(read) == Some(job.steps[0].contentHash)
      && read.itemResults == [first] && read.measurementResults == [] && read.partsUsed == []
      && read.attachments == [] && |read.approvalSteps| == 1 && read.approvalSteps[0].id == submit.stepId
      && CurrentRecord(job) == read.(itemResults := [first.(status := c2.status, remark := c2.remark)])
  {
    var moves := StaleSubmission(c1, c2, submit);
    var snap, held := BothCaptures(env, cfg, w, c1, c2, submit);
    AfterNext(env, cfg, w, moves, 5);
    assert moves[..6] == moves;
    assert snap.itemResults == [ItemWrite(c1).create];
    assert held.itemResults == [ItemWrite(c2).update(ItemWrite(c1).create)];
    read := FirstSubmission(env, cfg, held, snap, submit);
  }

  lemma OneRowSame(x: ItemResult, y: ItemResult)
    ensures SameRows([x], [y], Same()) <==> x == y
  {
    assert HasCounterpart(x, [y], Same()) <==> [y][0] == x;
    assert HasCounterpart(y, [x], Same()) <==> [x][0] == y;
  }

  lemma OneItemDiffers(nfc: Normaliser, a: RecordInput, b: RecordInput, r: ItemResult, s: ItemResult)
    requires a.itemResults == [r] && b.itemResults == [s] && nfc(r.status) != nfc(s.status)
    ensures !SameInput(NormalInput(nfc, a), NormalInput(nfc, b))
  {
    assert Map(NormalItem(nfc), [r]) == [NormalItem(nfc)(r)] && Map(NormalItem(nfc), [s]) == [NormalItem(nfc)(s)];
    OneRowSame(NormalItem(nfc)(r), NormalItem(nfc)(s));
  }

  lemma OneRowKeys(a: RecordInput, r: ItemResult)
    requires a.itemResults == [r] && a.measurementResults == [] && a.partsUsed == [] && a.attachments == []
    requires |a.approvalSteps| == 1 && IsAscii(r.id) && IsAscii(a.approvalSteps[0].id)
    ensures AllReadable(a) && UniqueIds(a) && AsciiIds(a)
  {
  }

  lemma ItemShowsInHash(
    nfc: Normaliser, iso: DateFormat, sha256: seq<Byte> -> Digest, a: RecordInput, b: RecordInput, r: ItemResult,
    s: ItemResult)
    requires CollisionFree(sha256) && a.itemResults == [r] && b.itemResults == [s]
    requires AllReadable(a) && UniqueIds(a) && AsciiIds(a) && AllReadable(b) && UniqueIds(b) && AsciiIds(b)
    requires nfc(r.status) != nfc(s.status)
    ensures ContentHash(nfc, iso, sha256)(a) != ContentHash(nfc, iso, sha256)(b)
  {
    ContentHashIff(nfc, iso, sha256, a, b);
    SameRecordIffSameInput(nfc, iso, a, b);
    OneItemDiffers(nfc, a, b, r, s);
  }

  lemma OtherHashIsStale(env: Env, job: Job, read: RecordInput)
    requires |job.steps| == 1 && env.contentHash(read) == Some(job.steps[0].contentHash)
    requires env.contentHash(read) != env.contentHash(CurrentRecord(job))
    ensures !NewestSigned(env, job) && !Intact(env, job)
  {
  }

  lemma FirstSignedOnly(
    nfc: Normaliser, iso: DateFormat, sha256: seq<Byte> -> Digest, read: RecordInput, held: RecordInput,
    r: ItemResult, s: ItemResult)
    requires CollisionFree(sha256) && nfc(r.status) != nfc(s.status) && s.id == r.id
    requires read.itemResults == [r] && held == read.(itemResults := [s])
    requires read.measurementResults == [] && read.partsUsed == [] && read.attachments == []
    requires |read.approvalSteps| == 1 && IsAscii(r.id) && IsAscii(read.approvalSteps[0].id)
    ensures ContentHash(nfc, iso, sha256)(read) != ContentHash(nfc, iso, sha256)(held)
  {
    OneRowKeys(read, r);
    OneRowKeys(held, s);
    ItemShowsInHash(nfc, iso, sha256, read, held, r, s);
  }

  /** A submission of a fresh job, every move lawful, that is signed stale: its own integrity check fails. */
  lemma StaleSubmissionSigned(
    nfc: Normaliser, iso: DateFormat, sha256: seq<Byte> -> Digest, env: Env, cfg: Config, w: World,
    c1: JobProtocol.Capture, c2: JobProtocol.Capture, submit: JobProtocol.Request)
    requires CollisionFree(sha256) && env.contentHash == ContentHash(nfc, iso, sha256)
    requires cfg.mandatoryItems == {} && IsFresh(w) && w.job.status == Assigned && Bare(w.job)
    requires Recordable(cfg, c1) && Recordable(cfg, c2) && c2.templateItemId == c1.templateItemId
    requires submit.Submit? && submit.titleFilled
    requires IsAscii(c1.rowId) && IsAscii(submit.stepId) && nfc(c1.status) != nfc(c2.status)
    ensures Timely(env, cfg, w, StaleSubmission(c1, c2, submit))
    ensures
      var job := RunMoves(env, cfg, w, StaleSubmission(c1, c2, submit)).job;
      job.status == Submitted && !NewestSigned(env, job) && !Intact(env, job)
  {
    ContentHashOfPlainRecords(nfc, iso, sha256, env);
    var snap, held := BothCaptures(env, cfg, w, c1, c2, submit);
    var job := RunMoves(env, cfg, w, StaleSubmission(c1, c2, submit)).job;
    var read := StaleSubmissionEnds(env, cfg, w, c1, c2, submit);
    var r := ItemResult(c1.rowId, c1.templateItemId, c1.status, c1.remark);
    var s := r.(status := c2.status, remark := c2.remark);
    FirstSignedOnly(nfc, iso, sha256, read, CurrentRecord(job), r, s);
    OtherHashIsStale(env, job, read);
  }
}

/**
 The integrity check after an interleaved run. It takes the step with the latest time to be the newest,
 while a step signs the steps committed before it, so the check also fails where the last commit is not
 the last in time.
 */
module InterleavedIntegrity {
  import opened Wrappers
  import opened Texts
  import opened CanonicalSerialiser
  import opened CanonicalEquality
  import opened CanonicalJobRecord
  import opened JobRecordEquality
  import opened RecordUpToNfc
  import opened JobProtocol
  import opened JobRuns
  import opened SplitRuns
  import opened RecordIntegrity
  import opened InterleavedSignatures
  import opened LawfulRuns
  import opened RevisedRows
  import opened StaleSignatures

  // ---------------------------------------------------------------- every step signs the steps up to it

  ghost predicate Signs(env: Env, steps: seq<Step>, i: nat, r: RecordInput)
    requires i < |steps|
  {
    env.contentHash(r) == Some(steps[i].contentHash) && r.approvalSteps == Map(BoundStep(), steps[..i + 1])
  }

  ghost predicate SignsPrefix(env: Env, steps: seq<Step>, i: nat)
    requires i < |steps|
  {
    exists r: RecordInput :: Signs(env, steps, i, r)
  }

  ghost predicate AllSignPrefixes(env: Env, steps: seq<Step>) {
    forall i: nat | i < |steps| :: SignsPrefix(env, steps, i)
  }

  lemma PrefixStillSigned(env: Env, steps: seq<Step>, t: Step, i: nat)
    requires i < |steps| && SignsPrefix(env, steps, i)
    ensures SignsPrefix(env, steps + [t], i)
  {
    var r: RecordInput :| Signs(env, steps, i, r);
    assert (steps + [t])[..i + 1] == steps[..i + 1];
    assert Signs(env, steps + [t], i, r);
  }

  lemma AppendSigns(env: Env, steps: seq<Step>, t: Step, r: RecordInput)
    requires AllSignPrefixes(env, steps)
    requires env.contentHash(r) == Some(t.contentHash) && r.approvalSteps == Map(BoundStep(), steps + [t])
    ensures AllSignPrefixes(env, steps + [t])
  {
    var all := steps + [t];
    assert all[..|steps| + 1] == all;
    assert Signs(env, all, |steps|, r);
    forall i: nat | i < |all| ensures SignsPrefix(env, all, i) {
      if i < |steps| {
        PrefixStillSigned(env, steps, t, i);
      }
    }
  }

  lemma CommitSigns(env: Env, cfg: Config, cur: Job, snap: Job, req: JobProtocol.Request)
    requires Commit(env, cfg, cur, snap, req).Ok? && AllSignPrefixes(env, cur.steps)
    requires |Commit(env, cfg, cur, snap, req).value.steps| > |cur.steps|
    ensures AllSignPrefixes(env, Commit(env, cfg, cur, snap, req).value.steps)
  {
    var u, d := SignedCommit(env, cfg, cur, snap, req);
    var t := u.step.(contentHash := d, signature := env.sign(d));
    BoundAppend(cur.steps, u.step, t);
    AppendSigns(env, cur.steps, t, RecordOf(snap, u.status, u.submitter, cur.steps + [u.step]));
  }

  lemma NextSigns(env: Env, cfg: Config, w: World, m: Move)
    requires AllSignPrefixes(env, w.job.steps)
    ensures AllSignPrefixes(env, Next(env, cfg, w, m).job.steps)
  {
    StepsNext(env, cfg, w, m);
    var after := Next(env, cfg, w, m).job;
    if |after.steps| > |w.job.steps| {
      CommitSigns(env, cfg, w.job, w.pending[m.id].snap, w.pending[m.id].req);
    } else {
      assert after.steps == w.job.steps;
    }
  }

  lemma {:induction false} RunSigns(env: Env, cfg: Config, w: World, moves: seq<Move>)
    requires IsFresh(w)
    ensures AllSignPrefixes(env, RunMoves(env, cfg, w, moves).job.steps)
  {
    if moves != [] {
      RunSigns(env, cfg, w, moves[..|moves| - 1]);
      NextSigns(env, cfg, RunMoves(env, cfg, w, moves[..|moves| - 1]), moves[|moves| - 1]);
    }
  }

  // ---------------------------------------------------------------- an earlier signature is never current

  lemma NormalArrayCount(nfc: Normaliser, v: Value, w: Value)
    requires v.Arr? && w.Arr? && Normal(nfc, v) == Normal(nfc, w)
    ensures |v.elems| == |w.elems|
  {
    NormalArray(nfc, v.elems);
    NormalArray(nfc, w.elems);
  }

  lemma NormalAllAt(nfc: Normaliser, vs: seq<Value>, ws: seq<Value>, i: nat)
    requires i < |vs| && i < |ws| && NormalAll(nfc, vs) == NormalAll(nfc, ws)
    ensures Normal(nfc, vs[i]) == Normal(nfc, ws[i])
  {
    assert NormalAll(nfc, vs)[i] == Normal(nfc, vs[i]) && NormalAll(nfc, ws)[i] == Normal(nfc, ws[i]);
  }

  lemma CountsOf(iso: DateFormat, a: RecordInput)
    ensures
      var vs := TopLevelValues(iso, a);
      && vs[6].Arr? && |vs[6].elems| == |a.attachments|
      && vs[7].Arr? && |vs[7].elems| == |a.approvalSteps|
  {
    SortMembers(a.attachments, AttachmentId());
    SortMembers(a.approvalSteps, StepId());
  }

  lemma SameRecordSameCounts(nfc: Normaliser, iso: DateFormat, a: RecordInput, b: RecordInput)
    requires AllReadable(a) && AllReadable(b)
    requires SameRecord(nfc, Build(iso, a).value, Build(iso, b).value)
    ensures |a.attachments| == |b.attachments| && |a.approvalSteps| == |b.approvalSteps|
  {
    var vs, ws := TopLevelValues(iso, a), TopLevelValues(iso, b);
    BuiltAlike(iso, a, b);
    AlikeSameIff(nfc, Build(iso, a).value, Build(iso, b).value);
    NormalKeyed(nfc, TopLevelKeys(), vs);
    NormalKeyed(nfc, TopLevelKeys(), ws);
    KeyedSameIff(TopLevelKeys(), NormalAll(nfc, vs), NormalAll(nfc, ws));
    CountsOf(iso, a);
    CountsOf(iso, b);
    NormalAllAt(nfc, vs, ws, 6);
    NormalAllAt(nfc, vs, ws, 7);
    NormalArrayCount(nfc, vs[6], ws[6]);
    NormalArrayCount(nfc, vs[7], ws[7]);
  }

  /** Records with different numbers of attachments or approval steps hash differently. */
  lemma CountShows(
    nfc: Normaliser, iso: DateFormat, sha256: seq<Byte> -> Digest, a: RecordInput, b: RecordInput)
    requires CollisionFree(sha256)
    requires |a.attachments| != |b.attachments| || |a.approvalSteps| != |b.approvalSteps|
    requires ContentHash(nfc, iso, sha256)(a).Some?
    ensures ContentHash(nfc, iso, sha256)(a) != ContentHash(nfc, iso, sha256)(b)
  {
    if !AllReadable(a) {
      UnreadableHasNoHash(nfc, iso, sha256, a);
    } else if !AllReadable(b) {
      UnreadableHasNoHash(nfc, iso, sha256, b);
    } else {
      ContentHashIff(nfc, iso, sha256, a, b);
      if SameRecord(nfc, Build(iso, a).value, Build(iso, b).value) {
        SameRecordSameCounts(nfc, iso, a, b);
      }
    }
  }

  // ---------------------------------------------------------------- when the check passes

  /** A step that ordering by time can put last. */
  ghost predicate LatestInTime(steps: seq<Step>, i: nat) {
    i < |steps| && forall j | 0 <= j < |steps| :: steps[j].actedAt <= steps[i].actedAt
  }

  /** The comparison of `checkIntegrity` with step `i` as the newest. */
  ghost predicate HashMatchesAt(env: Env, job: Job, i: nat)
    requires i < |job.steps|
  {
    env.contentHash(CurrentRecord(job)) == Some(job.steps[i].contentHash)
  }

  lemma EarlierNeverMatches(
    nfc: Normaliser, iso: DateFormat, sha256: seq<Byte> -> Digest, env: Env, job: Job, i: nat)
    requires CollisionFree(sha256) && env.contentHash == ContentHash(nfc, iso, sha256)
    requires i + 1 < |job.steps| && SignsPrefix(env, job.steps, i)
    ensures !HashMatchesAt(env, job, i)
  {
    var r: RecordInput :| Signs(env, job.steps, i, r);
    CountShows(nfc, iso, sha256, r, CurrentRecord(job));
  }

  lemma MatchesIff(
    nfc: Normaliser, iso: DateFormat, sha256: seq<Byte> -> Digest, env: Env, job: Job, i: nat)
    requires CollisionFree(sha256) && env.contentHash == ContentHash(nfc, iso, sha256)
    requires AllSignPrefixes(env, job.steps) && i < |job.steps|
    ensures HashMatchesAt(env, job, i) <==> i == |job.steps| - 1 && NewestSigned(env, job)
  {
    if i < |job.steps| - 1 {
      assert SignsPrefix(env, job.steps, i);
      EarlierNeverMatches(nfc, iso, sha256, env, job, i);
    }
  }

  /**
   The hash check of a submitted, archived or voided job, after any interleaving, passes exactly when the
   step it takes for the newest is the last committed one and nothing was revised since that one's read.
   */
  lemma IntegrityPassesIff(
    nfc: Normaliser, iso: DateFormat, sha256: seq<Byte> -> Digest, env: Env, cfg: Config, w: World,
    moves: seq<Move>, b: nat, e: nat, i: nat)
    requires CollisionFree(sha256) && env.contentHash == ContentHash(nfc, iso, sha256)
    requires IsFresh(w) && WroteNewest(env, cfg, w, moves, b, e)
    requires Frozen(RunMoves(env, cfg, w, moves).job.status)
    requires TableKeys(RunMoves(env, cfg, w, moves).job)
    requires LatestInTime(RunMoves(env, cfg, w, moves).job.steps, i)
    ensures
      var snap, job := After(env, cfg, w, moves, b), RunMoves(env, cfg, w, moves).job;
      HashMatchesAt(env, job, i) <==>
        && i == |job.steps| - 1
        && Unrevised(nfc, moves[b].req, snap.job, Writes(env, cfg, snap, moves[b..]))
  {
    RunSigns(env, cfg, w, moves);
    MatchesIff(nfc, iso, sha256, env, RunMoves(env, cfg, w, moves).job, i);
    NewestSignatureCurrentIff(nfc, iso, sha256, env, cfg, w, moves, b, e);
  }

  // ---------------------------------------------------------------- an untouched record that fails its check

  /** A void that begins before a verification and commits after it. */
  function LateVoid(
    c: JobProtocol.Capture, s: JobProtocol.Request, d: JobProtocol.Request, v: JobProtocol.Request): seq<Move>
  {
    [BeginCapture(9, c), End(9)] + [Begin(0, s), End(0)] + [Begin(1, d)] + [Begin(0, v), End(0)] + [End(1)]
  }

  ghost predicate LateVoidRequests(s: JobProtocol.Request, d: JobProtocol.Request, v: JobProtocol.Request) {
    && s.Submit? && s.titleFilled && d.Void? && v.Verify? && v.eligible && v.onBehalfOf.None? && v.actor != s.actor
    && s.now < d.now < v.now
  }

  ghost predicate SameForRecord(a: Job, b: Job) {
    SameCaptured(a, b) && SameFrame(a, b) && SubmitterOf(a) == SubmitterOf(b)
  }

  lemma VoidIsCurrent(env: Env, cfg: Config, cur: Job, snap: Job, req: JobProtocol.Request)
    requires req.Void? && Commit(env, cfg, cur, snap, req).Ok? && SameForRecord(cur, snap)
    ensures NewestSigned(env, Commit(env, cfg, cur, snap, req).value)
  {
    var u := GuardedUpdate(cfg, cur, snap, req).value;
    var d := env.contentHash(RecordOf(snap, u.status, u.submitter, u.row.steps + [u.step])).value;
    BoundAppend(u.row.steps, u.step, u.step.(contentHash := d, signature := env.sign(d)));
  }

  /** A submission, and a verification behind it, of a job with two stages. */
  lemma SubmitsAndVerifies(env: Env, cfg: Config, job: Job, s: JobProtocol.Request, v: JobProtocol.Request)
    returns (snap: Job, cur: Job, t1: Step, t2: Step)
    requires HashesPlainRecords(env) && cfg.mandatoryItems == {} && cfg.stageCount == 2
    requires Plain(job) && job.status == InProgress && job.steps == []
    requires s.Submit? && s.titleFilled && v.Verify? && v.eligible && v.onBehalfOf.None? && v.actor != s.actor
    ensures Precheck(cfg, job, s).None? && Commit(env, cfg, job, job, s) == Ok(snap)
    ensures Precheck(cfg, snap, v).None? && Commit(env, cfg, snap, snap, v) == Ok(cur)
    ensures Plain(snap) && Plain(cur) && snap.status == Submitted && cur.status == Submitted
    ensures snap.steps == [t1] && cur.steps == [t1, t2] && t2.actedAt == v.now && SameForRecord(cur, snap)
  {
    snap, t1 := Submits(env, cfg, job, s);
    assert snap.steps == [t1];
    cur, t2 := Verifies(env, cfg, snap, snap, 1, v);
    CommitKeepsData(env, cfg, snap, snap, v);
  }

  lemma LateVoidReaches(
    env: Env, cfg: Config, w: World, c: JobProtocol.Capture, s: JobProtocol.Request, d: JobProtocol.Request,
    v: JobProtocol.Request, job0: Job, snap: Job, cur: Job, after: Job)
    requires w.pending == map[] && w.job.status == Assigned && Recordable(cfg, c)
    requires job0 == CaptureWrite(w.job, w.job, c)
    requires Precheck(cfg, job0, s).None? && Commit(env, cfg, job0, job0, s) == Ok(snap)
    requires Precheck(cfg, snap, d).None? && Commit(env, cfg, cur, snap, d) == Ok(after)
    requires Precheck(cfg, snap, v).None? && Commit(env, cfg, snap, snap, v) == Ok(cur)
    ensures Reaches(env, cfg, w, LateVoid(c, s, d, v), World(after, map[]))
  {
    var moves := [BeginCapture(9, c), End(9)];
    ReachesCapture(env, cfg, w, 9, c);
    ReachesRequest(env, cfg, w, moves, World(job0, map[]), 0, s, snap);
    ReachesAround(env, cfg, w, moves + [Begin(0, s), End(0)], snap, 1, d, 0, v, cur, after);
  }

  /** The jobs of the run, and what the last one holds. */
  lemma LateVoidJobs(
    env: Env, cfg: Config, job0: Job, s: JobProtocol.Request, d: JobProtocol.Request, v: JobProtocol.Request)
    returns (snap: Job, cur: Job, after: Job)
    requires HashesPlainRecords(env) && cfg.mandatoryItems == {} && cfg.stageCount == 2
    requires Plain(job0) && job0.status == InProgress && job0.steps == [] && LateVoidRequests(s, d, v)
    ensures Precheck(cfg, job0, s).None? && Commit(env, cfg, job0, job0, s) == Ok(snap)
    ensures Precheck(cfg, snap, v).None? && Commit(env, cfg, snap, snap, v) == Ok(cur)
    ensures Precheck(cfg, snap, d).None? && Commit(env, cfg, cur, snap, d) == Ok(after)
    ensures after.status == Voided && NewestSigned(env, after) && |after.steps| == 3
    ensures after.steps[1].actedAt == v.now && after.steps[2].actedAt == d.now
  {
    var t1, t2, t3;
    snap, cur, t1, t2 := SubmitsAndVerifies(env, cfg, job0, s, v);
    after, t3 := Voids(env, cfg, cur, snap, d);
    VoidIsCurrent(env, cfg, cur, snap, d);
    assert after.steps == [t1, t2, t3];
  }

  /**
   An untouched record, lawfully voided, whose newest committed step signs it as it stands, fails its check:
   the verification is later in time than the void that was committed after it.
   */
  lemma LateVoidFailsCheck(
    nfc: Normaliser, iso: DateFormat, sha256: seq<Byte> -> Digest, env: Env, cfg: Config, w: World,
    c: JobProtocol.Capture, s: JobProtocol.Request, d: JobProtocol.Request, v: JobProtocol.Request)
    requires CollisionFree(sha256) && env.contentHash == ContentHash(nfc, iso, sha256)
    requires cfg.mandatoryItems == {} && cfg.stageCount == 2 && Recordable(cfg, c)
    requires IsFresh(w) && w.job.status == Assigned && Plain(w.job) && LateVoidRequests(s, d, v)
    ensures Timely(env, cfg, w, LateVoid(c, s, d, v))
    ensures
      var job := RunMoves(env, cfg, w, LateVoid(c, s, d, v)).job;
      && job.status == Voided && NewestSigned(env, job)
      && |job.steps| == 3 && job.steps[1].actedAt == v.now && job.steps[2].actedAt == d.now
      && !HashMatchesAt(env, job, 1)
  {
    ContentHashOfPlainRecords(nfc, iso, sha256, env);
    var job0 := CaptureWrite(w.job, w.job, c);
    var snap, cur, after := LateVoidJobs(env, cfg, job0, s, d, v);
    LateVoidReaches(env, cfg, w, c, s, d, v, job0, snap, cur, after);
    RunSigns(env, cfg, w, LateVoid(c, s, d, v));
    MatchesIff(nfc, iso, sha256, env, after, 1);
  }
}

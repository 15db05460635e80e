/**
 Who signs when requests interleave. The check that one person verifies once per cycle compares the times
 at which requests started, so a verification that started before a return and commits after the
 resubmission is overlooked, and the same person can sign the next stage too; and a signature that a return
 superseded can still keep its signer from signing again.
 */
module InterleavedSigners {
  import opened Wrappers
  import opened CanonicalJobRecord
  import opened JobProtocol
  import opened JobRuns
  import opened SplitRuns
  import opened InterleavedSignatures
  import opened CycleCheck
  import opened LawfulRuns

  /** A submitted or archived job's current cycle is signed by different people, the submitter first. */
  ghost predicate SignersDiffer(job: Job) {
    job.status == Submitted || job.status == Archived ==> DifferentPeople(Cycle(job.steps), job.submittedBy)
  }

  // ---------------------------------------------------------------- one move

  lemma NewSignerIff(cycle: seq<Step>, stage: int, submitter: Option<UserId>, t: Step)
    requires SignedThrough(cycle, stage) && DifferentPeople(cycle, submitter)
    requires submitter != Some(t.actorId)
    ensures DifferentPeople(cycle + [t], submitter) <==> !VerifiedIn(cycle, t.actorId)
  {
    var all := cycle + [t];
    if VerifiedIn(cycle, t.actorId) {
      var i :| 0 <= i < |cycle| && cycle[i].action == StepVerified && cycle[i].actorId == t.actorId;
      assert all[i].actorId == all[|cycle|].actorId;
    } else {
      forall i | 0 <= i < |cycle| ensures cycle[i].actorId != t.actorId {
      }
    }
  }

  /** What a committed verification appends, and what it leaves of the rest. */
  lemma VerifyAppends(env: Env, cfg: Config, cur: Job, snap: Job, req: JobProtocol.Request) returns (t: Step)
    requires Precheck(cfg, snap, req).None? && req.Verify? && Commit(env, cfg, cur, snap, req).Ok?
    ensures t.action == StepVerified && t.actorId == req.actor && t.actedAt == req.now
    ensures cur.status == Submitted && cur.submittedBy != Some(req.actor)
    ensures !AlreadyVerifiedThisCycle(cur.steps, req.actor)
    ensures
      var after := Commit(env, cfg, cur, snap, req).value;
      && after.steps == cur.steps + [t] && after.submittedBy == cur.submittedBy
      && (after.status == Submitted || after.status == Archived)
  {
    var u := GuardedUpdate(cfg, cur, snap, req).value;
    var d := env.contentHash(RecordOf(snap, u.status, u.submitter, u.row.steps + [u.step])).value;
    t := u.step.(contentHash := d, signature := env.sign(d));
  }

  lemma VerifyDiffersIff(env: Env, cfg: Config, cur: Job, snap: Job, req: JobProtocol.Request)
    requires StageShape(cfg, cur) && SignersDiffer(cur)
    requires Precheck(cfg, snap, req).None? && req.Verify? && Commit(env, cfg, cur, snap, req).Ok?
    ensures SignersDiffer(Commit(env, cfg, cur, snap, req).value) <==> !VerifiedIn(Cycle(cur.steps), req.actor)
  {
    var t := VerifyAppends(env, cfg, cur, snap, req);
    CycleAppend(cur.steps, t);
    NewSignerIff(Cycle(cur.steps), cur.currentStageOrdinal.value - 1, cur.submittedBy, t);
  }

  lemma SubmitDiffers(env: Env, cfg: Config, cur: Job, snap: Job, req: JobProtocol.Request)
    requires StageShape(cfg, cur) && req.Submit? && Commit(env, cfg, cur, snap, req).Ok?
    ensures SignersDiffer(Commit(env, cfg, cur, snap, req).value)
  {
    var u := GuardedUpdate(cfg, cur, snap, req).value;
    var d := env.contentHash(RecordOf(snap, u.status, u.submitter, u.row.steps + [u.step])).value;
    CycleAppend(cur.steps, u.step.(contentHash := d, signature := env.sign(d)));
  }

  lemma OtherDiffers(env: Env, cfg: Config, cur: Job, snap: Job, req: JobProtocol.Request)
    requires Precheck(cfg, snap, req).None? && !req.Submit? && !req.Verify?
    requires Commit(env, cfg, cur, snap, req).Ok?
    ensures SignersDiffer(Commit(env, cfg, cur, snap, req).value)
  {
    CommitTakesLegalEdge(env, cfg, cur, snap, req);
  }

  /** The move commits a verification by `actor`, who has verified in the cycle. */
  ghost predicate RepeatedBy(env: Env, cfg: Config, w: World, m: Move, actor: UserId) {
    && EndsVerification(env, cfg, w, m, actor) && !AlreadyVerifiedThisCycle(w.job.steps, actor)
    && VerifiedIn(Cycle(w.job.steps), actor)
  }

  ghost predicate RepeatsSigner(env: Env, cfg: Config, w: World, m: Move) {
    exists actor: UserId :: RepeatedBy(env, cfg, w, m, actor)
  }

  /** A lawful move keeps the signers different exactly when it does not repeat one. */
  lemma NextDiffersIff(env: Env, cfg: Config, w: World, m: Move)
    requires WorldInv(cfg, w) && SignersDiffer(w.job) && !StaleWrite(w, m)
    ensures SignersDiffer(Next(env, cfg, w, m).job) <==> !RepeatsSigner(env, cfg, w, m)
  {
    if EndsRequest(w, m) {
      var snap, req := w.pending[m.id].snap, w.pending[m.id].req;
      assert Checked(cfg, w.pending[m.id]);
      if req.Verify? {
        VerifyCommitsIff(env, cfg, w.job, snap, req);
        if Commit(env, cfg, w.job, snap, req).Ok? {
          VerifyDiffersIff(env, cfg, w.job, snap, req);
          assert RepeatedBy(env, cfg, w, m, req.actor) <==> VerifiedIn(Cycle(w.job.steps), req.actor);
        }
      } else if Commit(env, cfg, w.job, snap, req).Ok? {
        if req.Submit? {
          SubmitDiffers(env, cfg, w.job, snap, req);
        } else {
          OtherDiffers(env, cfg, w.job, snap, req);
        }
      }
    }
  }

  // ---------------------------------------------------------------- whole runs

  ghost predicate DifferAt(env: Env, cfg: Config, w: World, moves: seq<Move>, n: nat)
    requires n <= |moves|
  {
    SignersDiffer(After(env, cfg, w, moves, n).job)
  }

  ghost predicate RepeatedAt(env: Env, cfg: Config, w: World, moves: seq<Move>, n: nat, actor: UserId) {
    SignsAt(env, cfg, w, moves, n, actor) && SignedInCycle(env, cfg, w, moves, n, actor)
  }

  ghost predicate RepeatsAt(env: Env, cfg: Config, w: World, moves: seq<Move>, n: nat) {
    exists actor: UserId :: RepeatedAt(env, cfg, w, moves, n, actor)
  }

  lemma RepeatsSignerIff(env: Env, cfg: Config, w: World, moves: seq<Move>, n: nat)
    requires IsFresh(w) && n < |moves|
    ensures RepeatsAt(env, cfg, w, moves, n) <==> RepeatsSigner(env, cfg, After(env, cfg, w, moves, n), moves[n])
  {
    forall actor: UserId
      ensures RepeatedAt(env, cfg, w, moves, n, actor)
              <==> RepeatedBy(env, cfg, After(env, cfg, w, moves, n), moves[n], actor)
    {
      VerifiedInIff(env, cfg, w, moves, n, actor);
    }
  }

  lemma DifferNextIff(env: Env, cfg: Config, w: World, moves: seq<Move>, n: nat)
    requires IsFresh(w) && cfg.stageCount >= 1 && Timely(env, cfg, w, moves) && n < |moves|
    requires DifferAt(env, cfg, w, moves, n)
    ensures DifferAt(env, cfg, w, moves, n + 1) <==> !RepeatsAt(env, cfg, w, moves, n)
  {
    TimelyPrefix(env, cfg, w, moves, n);
    RunMovesKeep(env, cfg, w, moves[..n]);
    AfterNext(env, cfg, w, moves, n);
    RepeatsSignerIff(env, cfg, w, moves, n);
    NextDiffersIff(env, cfg, After(env, cfg, w, moves, n), moves[n]);
  }

  lemma {:induction false} DifferWithoutRepeats(env: Env, cfg: Config, w: World, moves: seq<Move>, n: nat)
    requires IsFresh(w) && cfg.stageCount >= 1 && Timely(env, cfg, w, moves) && n <= |moves|
    requires forall k: nat | k < n :: !RepeatsAt(env, cfg, w, moves, k)
    ensures DifferAt(env, cfg, w, moves, n)
  {
    if n == 0 {
      assert moves[..0] == [];
    } else {
      DifferWithoutRepeats(env, cfg, w, moves, n - 1);
      DifferNextIff(env, cfg, w, moves, n - 1);
    }
  }

  /** The move ends a verification that started no later than a return or recall that has committed since. */
  ghost predicate OutdatedAt(env: Env, cfg: Config, w: World, moves: seq<Move>, n: nat) {
    !LaterThanBreaks(env, cfg, w, moves, StartAt(env, cfg, w, moves, n), n)
  }

  /**
   Two moves end verifications by one person, no return or recall between them, each finding status, stage
   and submitter as they must be; the first is outdated, and the check has not seen the person by then.
   */
  ghost predicate SignsTwice(env: Env, cfg: Config, w: World, moves: seq<Move>, i: nat, j: nat, actor: UserId) {
    && i < j && NoBreakBetween(env, cfg, w, moves, i, j)
    && VerifyAt(env, cfg, w, moves, i, actor) && VerifyAt(env, cfg, w, moves, j, actor)
    && OutdatedAt(env, cfg, w, moves, i) && !SeenByTimes(env, cfg, w, moves, i, actor)
  }

  ghost predicate SomeoneSignsTwice(env: Env, cfg: Config, w: World, moves: seq<Move>) {
    exists i: nat, j: nat, actor: UserId :: SignsTwice(env, cfg, w, moves, i, j, actor)
  }

  /** A repeated signature is one of two, the first of them outdated. */
  lemma RepeatIsTwice(env: Env, cfg: Config, w: World, moves: seq<Move>, n: nat)
    requires IsFresh(w) && n < |moves| && RepeatsAt(env, cfg, w, moves, n)
    ensures SomeoneSignsTwice(env, cfg, w, moves)
  {
    var actor: UserId :| RepeatedAt(env, cfg, w, moves, n, actor);
    var i: nat :| i < n && SignsAt(env, cfg, w, moves, i, actor) && NoBreakBetween(env, cfg, w, moves, i, n);
    AlreadyVerifiedMovesIff(env, cfg, w, moves, n, actor);
    AlreadyVerifiedMovesIff(env, cfg, w, moves, i, actor);
    assert !LaterThanBreaks(env, cfg, w, moves, StartAt(env, cfg, w, moves, i), n);
    BreaksBefore(env, cfg, w, moves, i, n, StartAt(env, cfg, w, moves, i), actor);
    assert SignsTwice(env, cfg, w, moves, i, n, actor);
  }

  /** With no return or recall in between, the same ones count at both moves. */
  lemma BreaksBefore(
    env: Env, cfg: Config, w: World, moves: seq<Move>, i: nat, n: nat, start: Instant, actor: UserId)
    requires i < n && NoBreakBetween(env, cfg, w, moves, i, n) && VerifyAt(env, cfg, w, moves, i, actor)
    ensures LaterThanBreaks(env, cfg, w, moves, start, i) <==> LaterThanBreaks(env, cfg, w, moves, start, n)
  {
  }

  /** Someone whose outdated signature goes unseen signs again, or has, if the check sees them later. */
  lemma SeenMeansRepeated(env: Env, cfg: Config, w: World, moves: seq<Move>, i: nat, j: nat, k: nat, actor: UserId)
    requires SignsTwice(env, cfg, w, moves, i, j, actor) && SignsAt(env, cfg, w, moves, i, actor)
    requires k < j && SignsAt(env, cfg, w, moves, k, actor)
    requires LaterThanBreaks(env, cfg, w, moves, StartAt(env, cfg, w, moves, k), j)
    ensures i < k && RepeatsAt(env, cfg, w, moves, k)
  {
    assert LaterThanBreaks(env, cfg, w, moves, StartAt(env, cfg, w, moves, k), i);
    assert NoBreakBetween(env, cfg, w, moves, i, k);
    assert k != i;
    assert k > i;
    assert RepeatedAt(env, cfg, w, moves, k, actor);
  }

  lemma TwiceIsRepeated(env: Env, cfg: Config, w: World, moves: seq<Move>, i: nat, j: nat, actor: UserId)
    returns (n: nat)
    requires IsFresh(w) && SignsTwice(env, cfg, w, moves, i, j, actor)
    ensures n < |moves| && RepeatsAt(env, cfg, w, moves, n)
  {
    AlreadyVerifiedMovesIff(env, cfg, w, moves, i, actor);
    AlreadyVerifiedMovesIff(env, cfg, w, moves, j, actor);
    assert SignsAt(env, cfg, w, moves, i, actor);
    if SeenByTimes(env, cfg, w, moves, j, actor) {
      n :| n < j && SignsAt(env, cfg, w, moves, n, actor)
           && LaterThanBreaks(env, cfg, w, moves, StartAt(env, cfg, w, moves, n), j);
      SeenMeansRepeated(env, cfg, w, moves, i, j, n, actor);
    } else {
      n := j;
      assert RepeatedAt(env, cfg, w, moves, j, actor);
    }
  }

  /**
   The signers of every cycle differ throughout a run exactly when no two moves end verifications by one
   person in one cycle, the first of which started no later than an earlier return or recall.
   */
  lemma SignersDifferIff(env: Env, cfg: Config, w: World, moves: seq<Move>)
    requires IsFresh(w) && cfg.stageCount >= 1 && Timely(env, cfg, w, moves)
    ensures (forall n: nat | n <= |moves| :: DifferAt(env, cfg, w, moves, n))
            <==> !SomeoneSignsTwice(env, cfg, w, moves)
  {
    if SomeoneSignsTwice(env, cfg, w, moves) {
      var i: nat, j: nat, actor: UserId :| SignsTwice(env, cfg, w, moves, i, j, actor);
      var n := TwiceIsRepeated(env, cfg, w, moves, i, j, actor);
      if DifferAt(env, cfg, w, moves, n) {
        DifferNextIff(env, cfg, w, moves, n);
      }
    } else {
      forall n: nat | n < |moves| ensures !RepeatsAt(env, cfg, w, moves, n) {
        if RepeatsAt(env, cfg, w, moves, n) {
          RepeatIsTwice(env, cfg, w, moves, n);
        }
      }
      forall n: nat | n <= |moves| ensures DifferAt(env, cfg, w, moves, n) {
        DifferWithoutRepeats(env, cfg, w, moves, n);
      }
    }
  }

  /**
   In every interleaving in which no verification commits after a return or recall that is not earlier
   than its own start, one submission and one verification per stage archive a job, by different people.
   */
  lemma ArchivedByDifferentPeople(env: Env, cfg: Config, w: World, moves: seq<Move>)
    requires IsFresh(w) && cfg.stageCount >= 1 && Timely(env, cfg, w, moves)
    requires forall n: nat, actor: UserId | n < |moves| && VerifyAt(env, cfg, w, moves, n, actor) ::
      !OutdatedAt(env, cfg, w, moves, n)
    requires RunMoves(env, cfg, w, moves).job.status == Archived
    ensures
      var job := RunMoves(env, cfg, w, moves).job;
      SignedThrough(Cycle(job.steps), cfg.stageCount) && DifferentPeople(Cycle(job.steps), job.submittedBy)
  {
    SignersDifferIff(env, cfg, w, moves);
    assert DifferAt(env, cfg, w, moves, |moves|);
    assert moves[..|moves|] == moves;
    StagesInEveryInterleaving(env, cfg, w, moves);
  }

  // ---------------------------------------------------------------- where the check and the cycle differ

  /** Signed in the cycle, and only by requests that started no later than some return or recall so far. */
  ghost predicate Overlooked(env: Env, cfg: Config, w: World, moves: seq<Move>, n: nat, actor: UserId) {
    && SignedInCycle(env, cfg, w, moves, n, actor)
    && forall i: nat | i < n && SignsAt(env, cfg, w, moves, i, actor) ::
         !LaterThanBreaks(env, cfg, w, moves, StartAt(env, cfg, w, moves, i), n)
  }

  /** Signed by a request later than every return and recall so far, one of which has superseded each signature. */
  ghost predicate Superseded(env: Env, cfg: Config, w: World, moves: seq<Move>, n: nat, actor: UserId) {
    && SeenByTimes(env, cfg, w, moves, n, actor)
    && forall i: nat | i < n && SignsAt(env, cfg, w, moves, i, actor) ::
         exists k: nat :: i < k < n && BreakAt(env, cfg, w, moves, k)
  }

  /** When the check lets someone pass who has signed in the cycle, and when it refuses someone who has not. */
  lemma CheckErrsIff(env: Env, cfg: Config, w: World, moves: seq<Move>, n: nat, actor: UserId)
    requires IsFresh(w) && n <= |moves|
    ensures
      var steps := StepsAt(env, cfg, w, moves, n);
      var seen, signed := AlreadyVerifiedThisCycle(steps, actor), VerifiedIn(Cycle(steps), actor);
      && (!seen && signed <==> Overlooked(env, cfg, w, moves, n, actor))
      && (seen && !signed <==> Superseded(env, cfg, w, moves, n, actor))
  {
    AlreadyVerifiedMovesIff(env, cfg, w, moves, n, actor);
    VerifiedInIff(env, cfg, w, moves, n, actor);
  }

  // ---------------------------------------------------------------- one person, both signatures

  /** The steps of the run: submitted, returned, submitted again, and verified by someone who began before. */
  lemma CheckOverlooks(s1: Step, r: Step, s2: Step, v: Step, actor: UserId)
    requires s1.action == StepSubmitted && r.action == StepReturned && s2.action == StepSubmitted
    requires v.action == StepVerified && v.actedAt <= r.actedAt
    ensures !AlreadyVerifiedThisCycle([s1, r, s2], actor) && !AlreadyVerifiedThisCycle([s1, r, s2, v], actor)
    ensures Cycle([s1, r, s2]) == [s2]
  {
    assert [s1, r][..1] == [s1] && [s1, r, s2][..2] == [s1, r] && [s1, r, s2, v][..3] == [s1, r, s2];
    assert [s1][..0] == [];
    assert LastCycleBreak([s1]) == None;
    assert LastCycleBreak([s1, r]) == Some(r.actedAt);
    assert LastCycleBreak([s1, r, s2, v]) == LastCycleBreak([s1, r, s2]) == Some(r.actedAt);
  }

  /** A verification that is in flight while the job is returned and submitted again. */
  function OneSigner(
    c: JobProtocol.Capture, s1: JobProtocol.Request, v1: JobProtocol.Request, r: JobProtocol.Request,
    s2: JobProtocol.Request, v2: JobProtocol.Request): seq<Move>
  {
    [BeginCapture(9, c), End(9)] + [Begin(0, s1), End(0)] + [Begin(1, v1)] + [Begin(0, r), End(0)]
    + [Begin(0, s2), End(0)] + [End(1)] + [Begin(0, v2), End(0)]
  }

  /** The requests of the run, in order of the times they started at; one person makes both verifications. */
  ghost predicate OneSignerRequests(
    s1: JobProtocol.Request, v1: JobProtocol.Request, r: JobProtocol.Request, s2: JobProtocol.Request,
    v2: JobProtocol.Request)
  {
    && s1.Submit? && s1.titleFilled && v1.Verify? && r.Return? && s2.Submit? && s2.titleFilled && v2.Verify?
    && s1.now < v1.now < r.now < s2.now < v2.now
    && v1.eligible && v1.onBehalfOf.None? && v2.eligible && v2.onBehalfOf.None?
    && v1.actor == v2.actor && s1.actor != v1.actor && s2.actor != v1.actor
  }

  /** The run up to the first verification's read. */
  lemma OneSignerStart(
    env: Env, cfg: Config, w: World, c: JobProtocol.Capture, s1: JobProtocol.Request, v1: JobProtocol.Request)
    returns (snap: Job, t1: Step)
    requires HashesPlainRecords(env) && cfg.mandatoryItems == {} && cfg.stageCount == 2 && Recordable(cfg, c)
    requires IsFresh(w) && w.job.status == Assigned && Plain(w.job)
    requires s1.Submit? && s1.titleFilled && v1.Verify? && v1.eligible && v1.onBehalfOf.None? && s1.actor != v1.actor
    ensures Reaches(env, cfg, w, [BeginCapture(9, c), End(9)] + [Begin(0, s1), End(0)] + [Begin(1, v1)],
                    World(snap, map[1 := PendingRequest(snap, v1)]))
    ensures snap.status == Submitted && snap.currentStageOrdinal == Some(1) && snap.submittedBy == Some(s1.actor)
    ensures Plain(snap) && snap.steps == [t1] && t1.action == StepSubmitted
  {
    var moves := [BeginCapture(9, c), End(9)];
    var j0 := CaptureWrite(w.job, w.job, c);
    ReachesCapture(env, cfg, w, 9, c);
    snap, t1 := Submits(env, cfg, j0, s1);
    ReachesRequest(env, cfg, w, moves, World(j0, map[]), 0, s1, snap);
    ReachesNext(env, cfg, w, moves + [Begin(0, s1), End(0)], World(snap, map[]), Begin(1, v1));
  }

  lemma ReturnsAndSubmits(env: Env, cfg: Config, job: Job, r: JobProtocol.Request, s: JobProtocol.Request)
    returns (returned: Job, after: Job, t: Step, u: Step)
    requires HashesPlainRecords(env) && cfg.mandatoryItems == {}
    requires Plain(job) && job.status == Submitted && r.Return? && s.Submit? && s.titleFilled
    ensures Precheck(cfg, job, r).None? && Commit(env, cfg, job, job, r) == Ok(returned)
    ensures Precheck(cfg, returned, s).None? && Commit(env, cfg, returned, returned, s) == Ok(after)
    ensures after.status == Submitted && after.currentStageOrdinal == Some(1) && after.submittedBy == Some(s.actor)
    ensures Plain(after) && after.steps == job.steps + [t] + [u]
    ensures t.action == StepReturned && t.actedAt == r.now && u.action == StepSubmitted
  {
    returned, t := Returns(env, cfg, job, job, r);
    after, u := Submits(env, cfg, returned, s);
  }

  /** The run up to the resubmission, with the first verification still in flight. */
  lemma OneSignerHalf(
    env: Env, cfg: Config, w: World, c: JobProtocol.Capture, s1: JobProtocol.Request, v1: JobProtocol.Request,
    r: JobProtocol.Request, s2: JobProtocol.Request, v2: JobProtocol.Request)
    returns (snap: Job, cur: Job, t1: Step, t2: Step, t3: Step)
    requires HashesPlainRecords(env) && cfg.mandatoryItems == {} && cfg.stageCount == 2 && Recordable(cfg, c)
    requires IsFresh(w) && w.job.status == Assigned && Plain(w.job) && OneSignerRequests(s1, v1, r, s2, v2)
    ensures Reaches(env, cfg, w,
                    [BeginCapture(9, c), End(9)] + [Begin(0, s1), End(0)] + [Begin(1, v1)] + [Begin(0, r), End(0)]
                    + [Begin(0, s2), End(0)],
                    World(cur, map[1 := PendingRequest(snap, v1)]))
    ensures snap.status == Submitted && snap.currentStageOrdinal == Some(1) && snap.submittedBy == Some(s1.actor)
    ensures cur.status == Submitted && cur.currentStageOrdinal == Some(1) && cur.submittedBy == Some(s2.actor)
    ensures Plain(snap) && Plain(cur) && cur.steps == [t1, t2, t3]
    ensures t1.action == StepSubmitted && t2.action == StepReturned && t2.actedAt == r.now && t3.action == StepSubmitted
  {
    snap, t1 := OneSignerStart(env, cfg, w, c, s1, v1);
    var moves := [BeginCapture(9, c), End(9)] + [Begin(0, s1), End(0)] + [Begin(1, v1)];
    var pending: map<nat, Pending> := map[1 := PendingRequest(snap, v1)];
    var j2;
    j2, cur, t2, t3 := ReturnsAndSubmits(env, cfg, snap, r, s2);
    assert cur.steps == [t1, t2, t3];
    ReachesRequest(env, cfg, w, moves, World(snap, pending), 0, r, j2);
    ReachesRequest(env, cfg, w, moves + [Begin(0, r), End(0)], World(j2, pending), 0, s2, cur);
  }

  /** The verification that was in flight, and the second one by the same person. */
  lemma BothVerify(
    env: Env, cfg: Config, snap: Job, cur: Job, v1: JobProtocol.Request, v2: JobProtocol.Request,
    t1: Step, t2: Step, t3: Step)
    returns (j4: Job, j5: Job, t4: Step, t5: Step)
    requires HashesPlainRecords(env) && cfg.stageCount == 2 && Plain(snap) && Plain(cur) && v1.Verify? && v2.Verify?
    requires v1.eligible && v1.onBehalfOf.None? && v2.eligible && v2.onBehalfOf.None? && v1.actor == v2.actor
    requires snap.status == Submitted && snap.currentStageOrdinal == Some(1) && snap.submittedBy != Some(v1.actor)
    requires cur.status == Submitted && cur.currentStageOrdinal == Some(1) && cur.submittedBy != Some(v1.actor)
    requires cur.steps == [t1, t2, t3] && t1.action == StepSubmitted && t2.action == StepReturned
    requires t3.action == StepSubmitted && v1.now <= t2.actedAt
    ensures Precheck(cfg, snap, v1).None? && Commit(env, cfg, cur, snap, v1) == Ok(j4)
    ensures Precheck(cfg, j4, v2).None? && Commit(env, cfg, j4, j4, v2) == Ok(j5)
    ensures j5.status == Archived && Cycle(j5.steps) == [t3, t4, t5] && t4.actorId == t5.actorId == v1.actor
  {
    CheckOverlooks(t1, t2, t3, t1.(action := StepVerified, actedAt := v1.now), v1.actor);
    j4, t4 := Verifies(env, cfg, cur, snap, 1, v1);
    CheckOverlooks(t1, t2, t3, t4, v1.actor);
    assert j4.steps == [t1, t2, t3, t4];
    j5, t5 := Verifies(env, cfg, j4, j4, 2, v2);
    TwoMore([t1, t2, t3], t4, t5);
    assert j5.steps == [t1, t2, t3] + [t4] + [t5];
  }

  /** One person signs both stages of an archived job, with every move lawful and a clock that ascends. */
  lemma OnePersonSignsTwice(
    env: Env, cfg: Config, w: World, c: JobProtocol.Capture, s1: JobProtocol.Request, v1: JobProtocol.Request,
    r: JobProtocol.Request, s2: JobProtocol.Request, v2: JobProtocol.Request)
    requires HashesPlainRecords(env) && cfg.mandatoryItems == {} && cfg.stageCount == 2 && Recordable(cfg, c)
    requires IsFresh(w) && w.job.status == Assigned && Plain(w.job) && OneSignerRequests(s1, v1, r, s2, v2)
    ensures Timely(env, cfg, w, OneSigner(c, s1, v1, r, s2, v2))
    ensures
      var job := RunMoves(env, cfg, w, OneSigner(c, s1, v1, r, s2, v2)).job;
      && job.status == Archived && SignedThrough(Cycle(job.steps), 2)
      && Cycle(job.steps)[1].actorId == Cycle(job.steps)[2].actorId
  {
    var snap, cur, t1, t2, t3 := OneSignerHalf(env, cfg, w, c, s1, v1, r, s2, v2);
    var moves := [BeginCapture(9, c), End(9)] + [Begin(0, s1), End(0)] + [Begin(1, v1)] + [Begin(0, r), End(0)]
                 + [Begin(0, s2), End(0)];
    var held := World(cur, map[1 := PendingRequest(snap, v1)]);
    var j4, j5, t4, t5 := BothVerify(env, cfg, snap, cur, v1, v2, t1, t2, t3);
    ReachesNext(env, cfg, w, moves, held, End(1));
    assert held.pending - {1} == map[];
    ReachesRequest(env, cfg, w, moves + [End(1)], World(j4, map[]), 0, v2, j5);
    StagesInEveryInterleaving(env, cfg, w, OneSigner(c, s1, v1, r, s2, v2));
  }

  lemma TwoMore(steps: seq<Step>, s: Step, t: Step)
    requires |Cycle(steps)| == 1 && !IsBreak(s) && !IsBreak(t)
    ensures Cycle(steps + [s] + [t]) == Cycle(steps) + [s] + [t]
  {
    CycleAppend(steps, s);
    CycleAppend(steps + [s], t);
  }

  // ---------------------------------------------------------------- one person, refused for a superseded signature

  /** A return that is in flight while someone verifies, and a resubmission. */
  function LateReturn(
    c: JobProtocol.Capture, s1: JobProtocol.Request, r: JobProtocol.Request, v1: JobProtocol.Request,
    s2: JobProtocol.Request): seq<Move>
  {
    [BeginCapture(9, c), End(9)] + [Begin(0, s1), End(0)] + [Begin(1, r)] + [Begin(0, v1), End(0)] + [End(1)]
    + [Begin(0, s2), End(0)]
  }

  ghost predicate LateReturnRequests(
    s1: JobProtocol.Request, r: JobProtocol.Request, v1: JobProtocol.Request, s2: JobProtocol.Request,
    v2: JobProtocol.Request)
  {
    && s1.Submit? && s1.titleFilled && r.Return? && v1.Verify? && s2.Submit? && s2.titleFilled && v2.Verify?
    && s1.now < r.now < v1.now < s2.now < v2.now
    && v1.eligible && v1.onBehalfOf.None? && v2.eligible && v2.onBehalfOf.None?
    && v1.actor == v2.actor && s1.actor != v1.actor && s2.actor != v1.actor
  }

  lemma CheckStillSees(s1: Step, v: Step, r: Step, s2: Step)
    requires s1.action == StepSubmitted && v.action == StepVerified && r.action == StepReturned
    requires s2.action == StepSubmitted && r.actedAt < v.actedAt
    ensures AlreadyVerifiedThisCycle([s1, v, r, s2], v.actorId) && Cycle([s1, v, r, s2]) == [s2]
  {
    var steps := [s1, v, r, s2];
    assert steps[..3] == [s1, v, r] && [s1, v, r][..2] == [s1, v] && [s1, v][..1] == [s1] && [s1][..0] == [];
    assert LastCycleBreak([s1]) == None;
    assert LastCycleBreak([s1, v]) == None;
    assert LastCycleBreak(steps) == LastCycleBreak([s1, v, r]) == Some(r.actedAt);
    assert steps[1] == v;
  }

  lemma SubmittedAndVerified(
    env: Env, cfg: Config, job: Job, s1: JobProtocol.Request, v1: JobProtocol.Request)
    returns (snap: Job, verified: Job, t1: Step, t2: Step)
    requires HashesPlainRecords(env) && cfg.mandatoryItems == {} && cfg.stageCount == 2
    requires Plain(job) && job.status == InProgress && job.steps == []
    requires s1.Submit? && s1.titleFilled && v1.Verify? && v1.eligible && v1.onBehalfOf.None? && s1.actor != v1.actor
    ensures Precheck(cfg, job, s1).None? && Commit(env, cfg, job, job, s1) == Ok(snap)
    ensures Precheck(cfg, snap, v1).None? && Commit(env, cfg, snap, snap, v1) == Ok(verified)
    ensures Plain(snap) && Plain(verified) && snap.status == Submitted && verified.status == Submitted
    ensures verified.steps == [t1, t2] && t1.action == StepSubmitted
    ensures t2.action == StepVerified && t2.actorId == v1.actor && t2.actedAt == v1.now
  {
    snap, t1 := Submits(env, cfg, job, s1);
    assert snap.steps == [t1];
    verified, t2 := Verifies(env, cfg, snap, snap, 1, v1);
  }

  /** The cycle check refuses someone whose verification the return has superseded. */
  lemma RefusedAsSeen(env: Env, cfg: Config, job: Job, v2: JobProtocol.Request, s1: Step, v: Step, r: Step, s2: Step)
    requires job.steps == [s1, v, r, s2] && v.actorId == v2.actor && r.actedAt < v.actedAt
    requires s1.action == StepSubmitted && v.action == StepVerified && r.action == StepReturned
    requires s2.action == StepSubmitted && v2.Verify? && v2.eligible && v2.onBehalfOf.None?
    requires job.status == Submitted && job.currentStageOrdinal == Some(1) && cfg.stageCount == 2
    requires job.submittedBy != Some(v2.actor)
    ensures Precheck(cfg, job, v2).None? && Commit(env, cfg, job, job, v2) == Err(SelfApproval)
    ensures !VerifiedIn(Cycle(job.steps), v2.actor)
  {
    CheckStillSees(s1, v, r, s2);
  }

  /** The jobs of the run, one after the other. */
  lemma LateReturnJobs(
    env: Env, cfg: Config, job: Job, s1: JobProtocol.Request, r: JobProtocol.Request, v1: JobProtocol.Request,
    s2: JobProtocol.Request, v2: JobProtocol.Request)
    returns (snap: Job, verified: Job, returned: Job, again: Job)
    requires HashesPlainRecords(env) && cfg.mandatoryItems == {} && cfg.stageCount == 2
    requires Plain(job) && job.status == InProgress && job.steps == [] && LateReturnRequests(s1, r, v1, s2, v2)
    ensures Precheck(cfg, job, s1).None? && Commit(env, cfg, job, job, s1) == Ok(snap)
    ensures Precheck(cfg, snap, v1).None? && Commit(env, cfg, snap, snap, v1) == Ok(verified)
    ensures Precheck(cfg, snap, r).None? && Commit(env, cfg, verified, snap, r) == Ok(returned)
    ensures Precheck(cfg, returned, s2).None? && Commit(env, cfg, returned, returned, s2) == Ok(again)
    ensures Precheck(cfg, again, v2).None? && Commit(env, cfg, again, again, v2) == Err(SelfApproval)
    ensures !VerifiedIn(Cycle(again.steps), v2.actor)
  {
    var t1, t2, t3, t4;
    snap, verified, t1, t2 := SubmittedAndVerified(env, cfg, job, s1, v1);
    returned, t3 := Returns(env, cfg, verified, snap, r);
    again, t4 := Submits(env, cfg, returned, s2);
    assert again.steps == [t1, t2, t3, t4];
    RefusedAsSeen(env, cfg, again, v2, t1, t2, t3, t4);
  }

  lemma LateReturnReaches(
    env: Env, cfg: Config, w: World, c: JobProtocol.Capture, s1: JobProtocol.Request, r: JobProtocol.Request,
    v1: JobProtocol.Request, s2: JobProtocol.Request, job0: Job, snap: Job, verified: Job, returned: Job, again: Job)
    requires w.pending == map[] && w.job.status == Assigned && Recordable(cfg, c)
    requires job0 == CaptureWrite(w.job, w.job, c)
    requires Precheck(cfg, job0, s1).None? && Commit(env, cfg, job0, job0, s1) == Ok(snap)
    requires Precheck(cfg, snap, v1).None? && Commit(env, cfg, snap, snap, v1) == Ok(verified)
    requires Precheck(cfg, snap, r).None? && Commit(env, cfg, verified, snap, r) == Ok(returned)
    requires Precheck(cfg, returned, s2).None? && Commit(env, cfg, returned, returned, s2) == Ok(again)
    ensures Reaches(env, cfg, w, LateReturn(c, s1, r, v1, s2), World(again, map[]))
  {
    var moves := [BeginCapture(9, c), End(9)];
    ReachesCapture(env, cfg, w, 9, c);
    ReachesRequest(env, cfg, w, moves, World(job0, map[]), 0, s1, snap);
    moves := moves + [Begin(0, s1), End(0)];
    ReachesAround(env, cfg, w, moves, snap, 1, r, 0, v1, verified, returned);
    moves := moves + [Begin(1, r)] + [Begin(0, v1), End(0)] + [End(1)];
    ReachesRequest(env, cfg, w, moves, World(returned, map[]), 0, s2, again);
  }

  /** After a lawful run with ascending starts, someone who has not signed the cycle is refused as if they had. */
  lemma SupersededSignatureRefuses(
    env: Env, cfg: Config, w: World, c: JobProtocol.Capture, s1: JobProtocol.Request, r: JobProtocol.Request,
    v1: JobProtocol.Request, s2: JobProtocol.Request, v2: JobProtocol.Request)
    requires HashesPlainRecords(env) && cfg.mandatoryItems == {} && cfg.stageCount == 2 && Recordable(cfg, c)
    requires IsFresh(w) && w.job.status == Assigned && Plain(w.job) && LateReturnRequests(s1, r, v1, s2, v2)
    ensures Timely(env, cfg, w, LateReturn(c, s1, r, v1, s2))
    ensures
      var job := RunMoves(env, cfg, w, LateReturn(c, s1, r, v1, s2)).job;
      && Precheck(cfg, job, v2).None? && Commit(env, cfg, job, job, v2) == Err(SelfApproval)
      && !VerifiedIn(Cycle(job.steps), v2.actor)
  {
    var job0 := CaptureWrite(w.job, w.job, c);
    var snap, verified, returned, again := LateReturnJobs(env, cfg, job0, s1, r, v1, s2, v2);
    LateReturnReaches(env, cfg, w, c, s1, r, v1, s2, job0, snap, verified, returned, again);
  }
}

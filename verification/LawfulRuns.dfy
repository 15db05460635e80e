/**
 Building runs move by move: what a request, a capture or a whole read and commit adds to a run without
 a stale write.
 */
module LawfulRuns {
  import opened Wrappers
  import opened JobProtocol
  import opened SplitRuns

  /** The moves lead from `w` to `v` without a stale write. */
  ghost predicate Reaches(env: Env, cfg: Config, w: World, moves: seq<Move>, v: World) {
    RunMoves(env, cfg, w, moves) == v && Timely(env, cfg, w, moves)
  }

  lemma ReachesNext(env: Env, cfg: Config, w: World, moves: seq<Move>, v: World, m: Move)
    requires Reaches(env, cfg, w, moves, v) && !StaleWrite(v, m)
    ensures Reaches(env, cfg, w, moves + [m], Next(env, cfg, v, m))
  {
    var all := moves + [m];
    RunNext(env, cfg, w, moves, m);
    forall n: nat | n < |all| ensures !StaleWrite(After(env, cfg, w, all, n), all[n]) {
      if n < |moves| {
        assert all[..n] == moves[..n];
      } else {
        assert all[..n] == moves;
      }
    }
  }

  lemma BeginEnd(env: Env, cfg: Config, v: World, id: nat, req: JobProtocol.Request, after: Job)
    requires id !in v.pending
    requires Precheck(cfg, v.job, req).None? && Commit(env, cfg, v.job, v.job, req) == Ok(after)
    ensures
      var begun := Next(env, cfg, v, Begin(id, req));
      && !StaleWrite(v, Begin(id, req)) && !StaleWrite(begun, End(id))
      && Next(env, cfg, begun, End(id)) == World(after, v.pending)
  {
    assert v.pending[id := PendingRequest(v.job, req)] - {id} == v.pending;
  }

  /** A request that reads and commits with nothing in between. */
  lemma ReachesRequest(
    env: Env, cfg: Config, w: World, moves: seq<Move>, v: World, id: nat, req: JobProtocol.Request, after: Job)
    requires Reaches(env, cfg, w, moves, v) && id !in v.pending
    requires Precheck(cfg, v.job, req).None? && Commit(env, cfg, v.job, v.job, req) == Ok(after)
    ensures Reaches(env, cfg, w, moves + [Begin(id, req), End(id)], World(after, v.pending))
  {
    BeginEnd(env, cfg, v, id, req, after);
    ReachesNext(env, cfg, w, moves, v, Begin(id, req));
    ReachesNext(env, cfg, w, moves + [Begin(id, req)], Next(env, cfg, v, Begin(id, req)), End(id));
    assert moves + [Begin(id, req)] + [End(id)] == moves + [Begin(id, req), End(id)];
  }

  lemma EndsPending(env: Env, cfg: Config, cur: Job, id: nat, snap: Job, req: JobProtocol.Request, after: Job)
    requires Commit(env, cfg, cur, snap, req) == Ok(after)
    ensures
      var w := World(cur, map[id := PendingRequest(snap, req)]);
      !StaleWrite(w, End(id)) && Next(env, cfg, w, End(id)) == World(after, map[])
  {
    assert map[id := PendingRequest(snap, req)] - {id} == map[];
  }

  lemma BeginsPending(env: Env, cfg: Config, job: Job, id: nat, req: JobProtocol.Request)
    requires Precheck(cfg, job, req).None?
    ensures
      var w := World(job, map[]);
      !StaleWrite(w, Begin(id, req))
      && Next(env, cfg, w, Begin(id, req)) == World(job, map[id := PendingRequest(job, req)])
  {
  }

  /** One request that reads before another and commits after it. */
  lemma ReachesAround(
    env: Env, cfg: Config, w: World, moves: seq<Move>, job: Job, outer: nat, late: JobProtocol.Request, inner: nat,
    req: JobProtocol.Request, between: Job, after: Job)
    requires Reaches(env, cfg, w, moves, World(job, map[])) && outer != inner
    requires Precheck(cfg, job, late).None? && Precheck(cfg, job, req).None?
    requires Commit(env, cfg, job, job, req) == Ok(between) && Commit(env, cfg, between, job, late) == Ok(after)
    ensures Reaches(env, cfg, w, moves + [Begin(outer, late)] + [Begin(inner, req), End(inner)] + [End(outer)],
                    World(after, map[]))
  {
    var pending: map<nat, Pending> := map[outer := PendingRequest(job, late)];
    BeginsPending(env, cfg, job, outer, late);
    ReachesNext(env, cfg, w, moves, World(job, map[]), Begin(outer, late));
    ReachesRequest(env, cfg, w, moves + [Begin(outer, late)], World(job, pending), inner, req, between);
    EndsPending(env, cfg, between, outer, job, late, after);
    ReachesNext(env, cfg, w, moves + [Begin(outer, late)] + [Begin(inner, req), End(inner)], World(between, pending),
                End(outer));
  }

  lemma BeginEndCapture(env: Env, cfg: Config, w: World, id: nat, c: JobProtocol.Capture)
    requires w.pending == map[] && w.job.status == Assigned && Recordable(cfg, c)
    ensures
      var begun := Next(env, cfg, w, BeginCapture(id, c));
      && !StaleWrite(w, BeginCapture(id, c)) && !StaleWrite(begun, End(id))
      && Next(env, cfg, begun, End(id)) == World(CaptureWrite(w.job, w.job, c), map[])
  {
  }

  lemma ReachesStart(env: Env, cfg: Config, w: World)
    ensures Reaches(env, cfg, w, [], w)
  {
  }

  lemma ReachesCapture(env: Env, cfg: Config, w: World, id: nat, c: JobProtocol.Capture)
    requires w.pending == map[] && w.job.status == Assigned && Recordable(cfg, c)
    ensures Reaches(env, cfg, w, [BeginCapture(id, c), End(id)], World(CaptureWrite(w.job, w.job, c), map[]))
  {
    BeginEndCapture(env, cfg, w, id, c);
    ReachesStart(env, cfg, w);
    ReachesNext(env, cfg, w, [], w, BeginCapture(id, c));
    ReachesNext(env, cfg, w, [] + [BeginCapture(id, c)], Next(env, cfg, w, BeginCapture(id, c)), End(id));
    assert [] + [BeginCapture(id, c)] + [End(id)] == [BeginCapture(id, c), End(id)];
  }

  /** A job whose record can always be hashed. */
  ghost predicate Plain(job: Job) {
    job.measurementResults == [] && job.partRows == []
  }

  lemma Submits(env: Env, cfg: Config, job: Job, req: JobProtocol.Request) returns (after: Job, t: Step)
    requires HashesPlainRecords(env) && cfg.mandatoryItems == {}
    requires Plain(job) && job.status == InProgress && req.Submit? && req.titleFilled
    ensures Precheck(cfg, job, req).None? && Commit(env, cfg, job, job, req) == Ok(after) && Plain(after)
    ensures after.status == Submitted && after.currentStageOrdinal == Some(1) && after.submittedBy == Some(req.actor)
    ensures after.steps == job.steps + [t] && t.action == StepSubmitted
  {
    assert OutstandingMandatoryItems(cfg, job) == {};
    var u := GuardedUpdate(cfg, job, job, req).value;
    var d := env.contentHash(RecordOf(job, u.status, u.submitter, u.row.steps + [u.step])).value;
    t := u.step.(contentHash := d, signature := env.sign(d));
    after := Commit(env, cfg, job, job, req).value;
  }

  lemma Returns(env: Env, cfg: Config, cur: Job, snap: Job, req: JobProtocol.Request) returns (after: Job, t: Step)
    requires HashesPlainRecords(env) && Plain(snap) && Plain(cur) && req.Return?
    requires snap.status == Submitted && cur.status == Submitted
    ensures Precheck(cfg, snap, req).None? && Commit(env, cfg, cur, snap, req) == Ok(after) && Plain(after)
    ensures after.status == InProgress
    ensures after.steps == cur.steps + [t] && t.action == StepReturned && t.actedAt == req.now
  {
    var u := GuardedUpdate(cfg, cur, snap, req).value;
    var d := env.contentHash(RecordOf(snap, u.status, u.submitter, u.row.steps + [u.step])).value;
    t := u.step.(contentHash := d, signature := env.sign(d));
    after := Commit(env, cfg, cur, snap, req).value;
  }

  /** Someone eligible, neither submitter nor seen by the cycle check, verifies the stage that was read. */
  ghost predicate MayVerify(cfg: Config, cur: Job, snap: Job, stage: int, req: JobProtocol.Request) {
    && req.Verify? && req.eligible && req.onBehalfOf.None?
    && snap.status == Submitted && snap.currentStageOrdinal == Some(stage) && 1 <= stage <= cfg.stageCount
    && cur.status == Submitted && cur.currentStageOrdinal == Some(stage)
    && snap.submittedBy != Some(req.actor) && cur.submittedBy != Some(req.actor)
    && !AlreadyVerifiedThisCycle(cur.steps, req.actor)
  }

  lemma Verifies(env: Env, cfg: Config, cur: Job, snap: Job, stage: int, req: JobProtocol.Request)
    returns (after: Job, t: Step)
    requires HashesPlainRecords(env) && Plain(snap) && Plain(cur) && MayVerify(cfg, cur, snap, stage, req)
    ensures Precheck(cfg, snap, req).None? && Commit(env, cfg, cur, snap, req) == Ok(after) && Plain(after)
    ensures after.status == (if stage >= cfg.stageCount then Archived else Submitted)
    ensures stage < cfg.stageCount ==> after.currentStageOrdinal == Some(stage + 1)
    ensures after.submittedBy == cur.submittedBy && after.steps == cur.steps + [t]
    ensures t.action == StepVerified && t.actorId == req.actor && t.actedAt == req.now
  {
    var u := GuardedUpdate(cfg, cur, snap, req).value;
    var d := env.contentHash(RecordOf(snap, u.status, u.submitter, u.row.steps + [u.step])).value;
    t := u.step.(contentHash := d, signature := env.sign(d));
    after := Commit(env, cfg, cur, snap, req).value;
  }

  /** A void of a job that is neither archived nor voided yet, by a request that read it so. */
  lemma Voids(env: Env, cfg: Config, cur: Job, snap: Job, req: JobProtocol.Request) returns (after: Job, t: Step)
    requires HashesPlainRecords(env) && Plain(snap) && Plain(cur) && req.Void?
    requires snap.status == Submitted && cur.status == Submitted
    ensures Precheck(cfg, snap, req).None? && Commit(env, cfg, cur, snap, req) == Ok(after) && Plain(after)
    ensures after.status == Voided && after.steps == cur.steps + [t]
    ensures t.action == StepVoided && t.actedAt == req.now
  {
    var u := GuardedUpdate(cfg, cur, snap, req).value;
    var d := env.contentHash(RecordOf(snap, u.status, u.submitter, u.row.steps + [u.step])).value;
    t := u.step.(contentHash := d, signature := env.sign(d));
    after := Commit(env, cfg, cur, snap, req).value;
  }

  // ---------------------------------------------------------------- a job archived, and voided after that

  ghost predicate LifeRequests(cfg: Config, c: JobProtocol.Capture, s: JobProtocol.Request, v: JobProtocol.Request) {
    && cfg.mandatoryItems == {} && cfg.stageCount == 1 && Recordable(cfg, c)
    && s.Submit? && s.titleFilled && v.Verify? && v.eligible && v.onBehalfOf.None? && v.actor != s.actor
  }

  /** A capture, a submission and a verification, up to the verification's commit. */
  function LifeBegun(c: JobProtocol.Capture, s: JobProtocol.Request, v: JobProtocol.Request): seq<Move> {
    [BeginCapture(9, c), End(9)] + [Begin(0, s), End(0)] + [Begin(0, v)]
  }

  lemma SubmittedThenArchived(env: Env, cfg: Config, job: Job, s: JobProtocol.Request, v: JobProtocol.Request)
    returns (snap: Job, archived: Job)
    requires HashesPlainRecords(env) && cfg.mandatoryItems == {} && cfg.stageCount == 1
    requires Plain(job) && job.status == InProgress && job.steps == []
    requires s.Submit? && s.titleFilled && v.Verify? && v.eligible && v.onBehalfOf.None? && v.actor != s.actor
    ensures Precheck(cfg, job, s).None? && Commit(env, cfg, job, job, s) == Ok(snap) && snap.status == Submitted
    ensures Precheck(cfg, snap, v).None? && Commit(env, cfg, snap, snap, v) == Ok(archived)
    ensures archived.status == Archived && archived.verifiedAt == Some(v.now) && Plain(archived)
  {
    var t1, t2;
    snap, t1 := Submits(env, cfg, job, s);
    assert snap.steps == [t1];
    archived, t2 := Verifies(env, cfg, snap, snap, 1, v);
  }

  lemma LifeReaches(
    env: Env, cfg: Config, w: World, c: JobProtocol.Capture, s: JobProtocol.Request, v: JobProtocol.Request)
    returns (snap: Job, archived: Job)
    requires HashesPlainRecords(env) && LifeRequests(cfg, c, s, v)
    requires IsFresh(w) && w.job.status == Assigned && Plain(w.job)
    ensures snap.status == Submitted && archived.status == Archived && Plain(archived)
    ensures archived.verifiedAt == Some(v.now)
    ensures Reaches(env, cfg, w, LifeBegun(c, s, v), World(snap, map[0 := PendingRequest(snap, v)]))
    ensures Reaches(env, cfg, w, LifeBegun(c, s, v) + [End(0)], World(archived, map[]))
  {
    var moves := [BeginCapture(9, c), End(9)];
    var job0 := CaptureWrite(w.job, w.job, c);
    ReachesCapture(env, cfg, w, 9, c);
    snap, archived := SubmittedThenArchived(env, cfg, job0, s, v);
    ReachesRequest(env, cfg, w, moves, World(job0, map[]), 0, s, snap);
    moves := moves + [Begin(0, s), End(0)];
    ReachesNext(env, cfg, w, moves, World(snap, map[]), Begin(0, v));
    BeginEnd(env, cfg, World(snap, map[]), 0, v, archived);
    ReachesNext(env, cfg, w, moves + [Begin(0, v)], World(snap, map[0 := PendingRequest(snap, v)]), End(0));
  }

  /** An admin's void of an archived job. */
  lemma VoidsAnArchived(env: Env, cfg: Config, job: Job, req: JobProtocol.Request) returns (after: Job)
    requires HashesPlainRecords(env) && Plain(job) && job.status == Archived && req.Void? && req.isAdmin
    ensures Precheck(cfg, job, req).None? && Commit(env, cfg, job, job, req) == Ok(after) && after.status == Voided
  {
    var u := GuardedUpdate(cfg, job, job, req).value;
    var d := env.contentHash(RecordOf(job, u.status, u.submitter, u.row.steps + [u.step])).value;
    after := Commit(env, cfg, job, job, req).value;
  }
}

/**
 The check that one person verifies once per submission cycle, in terms of the moves of a run. The service
 compares the times at which requests started with the latest start of a return or recall; the cycle is
 about the order of commits. The two differ in both directions when requests interleave.
 */
module CycleCheck {
  import opened Wrappers
  import opened CanonicalJobRecord
  import opened JobProtocol
  import opened JobRuns
  import opened SplitRuns
  import opened InterleavedSignatures

  // ---------------------------------------------------------------- the guards of a commit

  /** What a verification, return or recall signs when it commits to the row `cur`. */
  function RecordToSign(cfg: Config, cur: Job, snap: Job, req: JobProtocol.Request): RecordInput
    requires req.Verify? || req.Return? || req.Recall?
  {
    var stage := StageOf(snap, 1);
    var status := if !req.Verify? then InProgress else if stage >= cfg.stageCount then Archived else Submitted;
    var step :=
      match req
      case Verify(actor, _, onBehalfOf, _, comment, stepId, now) =>
        NewStep(stepId, stage, StepVerified, actor, onBehalfOf, comment, now)
      case Return(actor, reason, stepId, now) =>
        NewStep(stepId, stage, StepReturned, actor, None, Some(reason), now)
      case Recall(actor, stepId, now) => NewStep(stepId, stage, StepRecalled, actor, None, None, now);
    RecordOf(snap, status, Submitter(snap.submittedBy, snap.submittedAt), cur.steps + [step])
  }

  /** What the row must be like, the cycle check apart: its status, for a verification also stage and submitter. */
  ghost predicate MeetsGuards(env: Env, cfg: Config, cur: Job, snap: Job, req: JobProtocol.Request)
    requires req.Verify? || req.Return? || req.Recall?
  {
    && cur.status == Submitted && env.contentHash(RecordToSign(cfg, cur, snap, req)).Some?
    && (req.Verify? ==>
          cur.currentStageOrdinal == Some(StageOf(snap, 1)) && cur.submittedBy != Some(req.actor))
  }

  lemma VerifyCommitsIff(env: Env, cfg: Config, cur: Job, snap: Job, req: JobProtocol.Request)
    requires req.Verify?
    ensures Commit(env, cfg, cur, snap, req).Ok?
            <==> MeetsGuards(env, cfg, cur, snap, req) && !AlreadyVerifiedThisCycle(cur.steps, req.actor)
  {
  }

  lemma BreakCommitsIff(env: Env, cfg: Config, cur: Job, snap: Job, req: JobProtocol.Request)
    requires req.Return? || req.Recall?
    ensures Commit(env, cfg, cur, snap, req).Ok? <==> MeetsGuards(env, cfg, cur, snap, req)
  {
  }

  // ---------------------------------------------------------------- verifications and breaks among the moves

  /** The move ends a return or recall that finds the row as it must be. */
  ghost predicate BreaksCycle(env: Env, cfg: Config, w: World, m: Move) {
    EndsRequest(w, m) &&
    var p := w.pending[m.id];
    (p.req.Return? || p.req.Recall?) && MeetsGuards(env, cfg, w.job, p.snap, p.req)
  }

  /** The move ends a verification by `actor` that finds the row as it must be, the cycle check apart. */
  ghost predicate EndsVerification(env: Env, cfg: Config, w: World, m: Move, actor: UserId) {
    EndsRequest(w, m) &&
    var p := w.pending[m.id];
    p.req.Verify? && p.req.actor == actor && MeetsGuards(env, cfg, w.job, p.snap, p.req)
  }

  /** When the request that the move ends started. */
  function StartOf(w: World, m: Move): Instant {
    if EndsRequest(w, m) then w.pending[m.id].req.now else 0
  }

  ghost predicate BreakAt(env: Env, cfg: Config, w: World, moves: seq<Move>, n: nat) {
    n < |moves| && BreaksCycle(env, cfg, After(env, cfg, w, moves, n), moves[n])
  }

  ghost predicate VerifyAt(env: Env, cfg: Config, w: World, moves: seq<Move>, n: nat, actor: UserId) {
    n < |moves| && EndsVerification(env, cfg, After(env, cfg, w, moves, n), moves[n], actor)
  }

  function StartAt(env: Env, cfg: Config, w: World, moves: seq<Move>, n: nat): Instant {
    if n < |moves| then StartOf(After(env, cfg, w, moves, n), moves[n]) else 0
  }

  /** The verification also passes the cycle check, and so commits. */
  ghost predicate SignsAt(env: Env, cfg: Config, w: World, moves: seq<Move>, n: nat, actor: UserId) {
    && VerifyAt(env, cfg, w, moves, n, actor)
    && !AlreadyVerifiedThisCycle(After(env, cfg, w, moves, n).job.steps, actor)
  }

  ghost predicate NoBreakBetween(env: Env, cfg: Config, w: World, moves: seq<Move>, i: nat, n: nat) {
    forall k: nat | i < k < n :: !BreakAt(env, cfg, w, moves, k)
  }

  /** Started after every return and recall that has committed by move `n`. */
  ghost predicate LaterThanBreaks(env: Env, cfg: Config, w: World, moves: seq<Move>, start: Instant, n: nat) {
    forall k: nat | k < n && BreakAt(env, cfg, w, moves, k) :: StartAt(env, cfg, w, moves, k) < start
  }

  /** The actor signed before move `n`, with no return or recall since. */
  ghost predicate SignedInCycle(env: Env, cfg: Config, w: World, moves: seq<Move>, n: nat, actor: UserId) {
    exists i: nat | i < n :: SignsAt(env, cfg, w, moves, i, actor) && NoBreakBetween(env, cfg, w, moves, i, n)
  }

  /** The actor signed before move `n`, by a request that started after every return and recall so far. */
  ghost predicate SeenByTimes(env: Env, cfg: Config, w: World, moves: seq<Move>, n: nat, actor: UserId) {
    exists i: nat | i < n ::
      && SignsAt(env, cfg, w, moves, i, actor)
      && LaterThanBreaks(env, cfg, w, moves, StartAt(env, cfg, w, moves, i), n)
  }

  // ---------------------------------------------------------------- which move wrote which step

  ghost predicate Appends(env: Env, cfg: Config, w: World, m: Move) {
    |Next(env, cfg, w, m).job.steps| > |w.job.steps|
  }

  lemma CommittedStep(env: Env, cfg: Config, cur: Job, snap: Job, req: JobProtocol.Request)
    requires Precheck(cfg, snap, req).None? && Commit(env, cfg, cur, snap, req).Ok? && !req.Assign?
    ensures
      var steps := Commit(env, cfg, cur, snap, req).value.steps;
      && |steps| == |cur.steps| + 1 && steps[..|cur.steps|] == cur.steps
      && steps[|cur.steps|].actedAt == req.now
      && (IsBreak(steps[|cur.steps|]) <==> req.Return? || req.Recall?)
      && (steps[|cur.steps|].action == StepVerified <==> req.Verify?)
      && (req.Verify? ==> steps[|cur.steps|].actorId == req.actor)
  {
    var u := GuardedUpdate(cfg, cur, snap, req).value;
    UpdateTakesLegalEdge(cfg, cur, snap, req, u);
  }

  lemma AssignAppendsNothing(env: Env, cfg: Config, cur: Job, snap: Job, req: JobProtocol.Request)
    requires Precheck(cfg, snap, req).None? && Commit(env, cfg, cur, snap, req).Ok? && req.Assign?
    ensures Commit(env, cfg, cur, snap, req).value.steps == cur.steps
  {
  }

  /** The step that a move appends is a break, or a verification by `actor`, exactly when the move is one. */
  lemma AppendedStep(env: Env, cfg: Config, w: World, m: Move, actor: UserId)
    requires AllChecked(cfg, w)
    ensures
      var steps := Next(env, cfg, w, m).job.steps;
      var n := |w.job.steps|;
      && n <= |steps| <= n + 1 && steps[..n] == w.job.steps
      && (BreaksCycle(env, cfg, w, m) <==> Appends(env, cfg, w, m) && IsBreak(steps[n]))
      && (EndsVerification(env, cfg, w, m, actor) && !AlreadyVerifiedThisCycle(w.job.steps, actor)
          <==> Appends(env, cfg, w, m) && steps[n].action == StepVerified && steps[n].actorId == actor)
      && (Appends(env, cfg, w, m) ==> steps[n].actedAt == StartOf(w, m))
  {
    if EndsRequest(w, m) {
      var p := w.pending[m.id];
      assert Checked(cfg, p);
      if p.req.Verify? {
        VerifyCommitsIff(env, cfg, w.job, p.snap, p.req);
      } else if p.req.Return? || p.req.Recall? {
        BreakCommitsIff(env, cfg, w.job, p.snap, p.req);
      }
      if Commit(env, cfg, w.job, p.snap, p.req).Ok? {
        if p.req.Assign? {
          AssignAppendsNothing(env, cfg, w.job, p.snap, p.req);
        } else {
          CommittedStep(env, cfg, w.job, p.snap, p.req);
        }
      }
    }
  }

  function StepsAt(env: Env, cfg: Config, w: World, moves: seq<Move>, n: nat): seq<Step>
    requires n <= |moves|
  {
    After(env, cfg, w, moves, n).job.steps
  }

  /** Step `p` stands from move `e` on. */
  ghost predicate WritesStep(env: Env, cfg: Config, w: World, moves: seq<Move>, e: nat, p: nat) {
    e < |moves| && |StepsAt(env, cfg, w, moves, e)| == p && |StepsAt(env, cfg, w, moves, e + 1)| == p + 1
  }

  lemma {:induction false} Writer(env: Env, cfg: Config, w: World, moves: seq<Move>, n: nat, p: nat) returns (e: nat)
    requires w.job.steps == [] && n <= |moves| && p < |StepsAt(env, cfg, w, moves, n)|
    ensures e < n && WritesStep(env, cfg, w, moves, e, p)
  {
    assert moves[..0] == [];
    AfterNext(env, cfg, w, moves, n - 1);
    StepsNext(env, cfg, After(env, cfg, w, moves, n - 1), moves[n - 1]);
    if p < |StepsAt(env, cfg, w, moves, n - 1)| {
      e := Writer(env, cfg, w, moves, n - 1, p);
    } else {
      e := n - 1;
    }
  }

  /** What a move wrote is what later worlds hold, and says what kind of move it was. */
  lemma StepOfMove(env: Env, cfg: Config, w: World, moves: seq<Move>, e: nat, p: nat, n: nat, actor: UserId)
    requires AllChecked(cfg, w) && WritesStep(env, cfg, w, moves, e, p) && e < n <= |moves|
    ensures p < |StepsAt(env, cfg, w, moves, n)|
    ensures
      var s := StepsAt(env, cfg, w, moves, n)[p];
      && s.actedAt == StartAt(env, cfg, w, moves, e)
      && (BreakAt(env, cfg, w, moves, e) <==> IsBreak(s))
      && (SignsAt(env, cfg, w, moves, e, actor) <==> s.action == StepVerified && s.actorId == actor)
  {
    RunChecked(env, cfg, w, moves[..e]);
    AfterNext(env, cfg, w, moves, e);
    AppendedStep(env, cfg, After(env, cfg, w, moves, e), moves[e], actor);
    StepsGrow(env, cfg, w, moves, e + 1, n);
  }

  /** A break or a committed verification writes a step. */
  lemma MoveWrites(env: Env, cfg: Config, w: World, moves: seq<Move>, e: nat, actor: UserId)
    requires AllChecked(cfg, w)
    requires BreakAt(env, cfg, w, moves, e) || SignsAt(env, cfg, w, moves, e, actor)
    ensures WritesStep(env, cfg, w, moves, e, |StepsAt(env, cfg, w, moves, e)|)
  {
    RunChecked(env, cfg, w, moves[..e]);
    AfterNext(env, cfg, w, moves, e);
    AppendedStep(env, cfg, After(env, cfg, w, moves, e), moves[e], actor);
  }

  /** Earlier moves write earlier steps. */
  lemma WritersInOrder(env: Env, cfg: Config, w: World, moves: seq<Move>, e: nat, p: nat, f: nat, q: nat)
    requires WritesStep(env, cfg, w, moves, e, p) && WritesStep(env, cfg, w, moves, f, q)
    ensures e < f <==> p < q
  {
    if e < f {
      StepsGrow(env, cfg, w, moves, e + 1, f);
    } else if f < e {
      StepsGrow(env, cfg, w, moves, f + 1, e);
    }
  }

  // ---------------------------------------------------------------- the cycle in terms of moves

  lemma {:induction false} CycleStart(steps: seq<Step>, p: nat)
    requires p < |steps|
    ensures |Cycle(steps)| <= |steps|
    ensures p >= |steps| - |Cycle(steps)| <==> forall q | p <= q < |steps| :: !IsBreak(steps[q])
  {
    var last := |steps| - 1;
    CycleIsSuffix(steps);
    if !IsBreak(steps[last]) && p < last {
      CycleStart(steps[..last], p);
    }
  }

  lemma InCycleIff(
    env: Env, cfg: Config, w: World, moves: seq<Move>, i: nat, p: nat, n: nat, actor: UserId)
    requires IsFresh(w) && i < n <= |moves| && SignsAt(env, cfg, w, moves, i, actor)
    requires WritesStep(env, cfg, w, moves, i, p)
    ensures p < |StepsAt(env, cfg, w, moves, n)|
    ensures
      var steps := StepsAt(env, cfg, w, moves, n);
      (forall q | p <= q < |steps| :: !IsBreak(steps[q])) <==> NoBreakBetween(env, cfg, w, moves, i, n)
  {
    var steps := StepsAt(env, cfg, w, moves, n);
    StepOfMove(env, cfg, w, moves, i, p, n, actor);
    if NoBreakBetween(env, cfg, w, moves, i, n) {
      forall q: nat | p <= q < |steps| ensures !IsBreak(steps[q]) {
        var k := Writer(env, cfg, w, moves, n, q);
        StepOfMove(env, cfg, w, moves, k, q, n, actor);
        WritersInOrder(env, cfg, w, moves, i, p, k, q);
        WritersInOrder(env, cfg, w, moves, k, q, i, p);
      }
    }
    if forall q | p <= q < |steps| :: !IsBreak(steps[q]) {
      forall k: nat | i < k < n ensures !BreakAt(env, cfg, w, moves, k) {
        if BreakAt(env, cfg, w, moves, k) {
          MoveWrites(env, cfg, w, moves, k, actor);
          var q := |StepsAt(env, cfg, w, moves, k)|;
          StepOfMove(env, cfg, w, moves, k, q, n, actor);
          WritersInOrder(env, cfg, w, moves, i, p, k, q);
        }
      }
    }
  }

  lemma VerifiedInMoves(env: Env, cfg: Config, w: World, moves: seq<Move>, n: nat, actor: UserId)
    requires IsFresh(w) && n <= |moves| && VerifiedIn(Cycle(StepsAt(env, cfg, w, moves, n)), actor)
    ensures SignedInCycle(env, cfg, w, moves, n, actor)
  {
    var steps := StepsAt(env, cfg, w, moves, n);
    var cycle := Cycle(steps);
    CycleIsSuffix(steps);
    var j :| 0 <= j < |cycle| && cycle[j].action == StepVerified && cycle[j].actorId == actor;
    var p := |steps| - |cycle| + j;
    assert steps[p] == cycle[j];
    var i := Writer(env, cfg, w, moves, n, p);
    StepOfMove(env, cfg, w, moves, i, p, n, actor);
    InCycleIff(env, cfg, w, moves, i, p, n, actor);
    CycleStart(steps, p);
  }

  lemma MovesVerifiedIn(env: Env, cfg: Config, w: World, moves: seq<Move>, n: nat, actor: UserId)
    requires IsFresh(w) && n <= |moves| && SignedInCycle(env, cfg, w, moves, n, actor)
    ensures VerifiedIn(Cycle(StepsAt(env, cfg, w, moves, n)), actor)
  {
    var steps := StepsAt(env, cfg, w, moves, n);
    var i: nat :| i < n && SignsAt(env, cfg, w, moves, i, actor) && NoBreakBetween(env, cfg, w, moves, i, n);
    var p := |StepsAt(env, cfg, w, moves, i)|;
    MoveWrites(env, cfg, w, moves, i, actor);
    StepOfMove(env, cfg, w, moves, i, p, n, actor);
    InCycleIff(env, cfg, w, moves, i, p, n, actor);
    CycleStart(steps, p);
    CycleIsSuffix(steps);
    assert Cycle(steps)[p - (|steps| - |Cycle(steps)|)] == steps[p];
  }

  /** The actor has verified in the current cycle exactly when it signed with no return or recall since. */
  lemma VerifiedInIff(env: Env, cfg: Config, w: World, moves: seq<Move>, n: nat, actor: UserId)
    requires IsFresh(w) && n <= |moves|
    ensures VerifiedIn(Cycle(StepsAt(env, cfg, w, moves, n)), actor) <==> SignedInCycle(env, cfg, w, moves, n, actor)
  {
    if VerifiedIn(Cycle(StepsAt(env, cfg, w, moves, n)), actor) {
      VerifiedInMoves(env, cfg, w, moves, n, actor);
    }
    if SignedInCycle(env, cfg, w, moves, n, actor) {
      MovesVerifiedIn(env, cfg, w, moves, n, actor);
    }
  }

  // ---------------------------------------------------------------- the check in terms of moves

  lemma {:induction false} LastBreakIsLatest(steps: seq<Step>, t: Instant)
    ensures (LastCycleBreak(steps).None? || t > LastCycleBreak(steps).value)
            <==> forall q | 0 <= q < |steps| && IsBreak(steps[q]) :: steps[q].actedAt < t
  {
    if steps != [] {
      var last := |steps| - 1;
      LastBreakIsLatest(steps[..last], t);
      assert forall q | 0 <= q < last :: steps[..last][q] == steps[q];
    }
  }

  lemma BreaksAreMoves(env: Env, cfg: Config, w: World, moves: seq<Move>, n: nat, t: Instant)
    requires IsFresh(w) && n <= |moves|
    ensures
      var steps := StepsAt(env, cfg, w, moves, n);
      (forall q | 0 <= q < |steps| && IsBreak(steps[q]) :: steps[q].actedAt < t)
      <==> LaterThanBreaks(env, cfg, w, moves, t, n)
  {
    var steps := StepsAt(env, cfg, w, moves, n);
    if forall q | 0 <= q < |steps| && IsBreak(steps[q]) :: steps[q].actedAt < t {
      forall k: nat | k < n && BreakAt(env, cfg, w, moves, k) ensures StartAt(env, cfg, w, moves, k) < t {
        MoveWrites(env, cfg, w, moves, k, []);
        StepOfMove(env, cfg, w, moves, k, |StepsAt(env, cfg, w, moves, k)|, n, []);
      }
    }
    if LaterThanBreaks(env, cfg, w, moves, t, n) {
      forall q: nat | q < |steps| && IsBreak(steps[q]) ensures steps[q].actedAt < t {
        var k := Writer(env, cfg, w, moves, n, q);
        StepOfMove(env, cfg, w, moves, k, q, n, []);
      }
    }
  }

  lemma CountedIff(env: Env, cfg: Config, w: World, moves: seq<Move>, n: nat, t: Instant)
    requires IsFresh(w) && n <= |moves|
    ensures
      var lastBreak := LastCycleBreak(StepsAt(env, cfg, w, moves, n));
      (lastBreak.None? || t > lastBreak.value) <==> LaterThanBreaks(env, cfg, w, moves, t, n)
  {
    LastBreakIsLatest(StepsAt(env, cfg, w, moves, n), t);
    BreaksAreMoves(env, cfg, w, moves, n, t);
  }

  lemma AlreadyMoves(env: Env, cfg: Config, w: World, moves: seq<Move>, n: nat, actor: UserId)
    requires IsFresh(w) && n <= |moves| && AlreadyVerifiedThisCycle(StepsAt(env, cfg, w, moves, n), actor)
    ensures SeenByTimes(env, cfg, w, moves, n, actor)
  {
    var steps := StepsAt(env, cfg, w, moves, n);
    var lastBreak := LastCycleBreak(steps);
    var p: nat :| p < |steps| && steps[p].action == StepVerified && steps[p].actorId == actor
                  && (lastBreak.None? || steps[p].actedAt > lastBreak.value);
    var i := Writer(env, cfg, w, moves, n, p);
    StepOfMove(env, cfg, w, moves, i, p, n, actor);
    CountedIff(env, cfg, w, moves, n, steps[p].actedAt);
  }

  lemma MovesAlready(env: Env, cfg: Config, w: World, moves: seq<Move>, n: nat, actor: UserId)
    requires IsFresh(w) && n <= |moves| && SeenByTimes(env, cfg, w, moves, n, actor)
    ensures AlreadyVerifiedThisCycle(StepsAt(env, cfg, w, moves, n), actor)
  {
    var i: nat :| i < n && SignsAt(env, cfg, w, moves, i, actor)
                  && LaterThanBreaks(env, cfg, w, moves, StartAt(env, cfg, w, moves, i), n);
    var p := |StepsAt(env, cfg, w, moves, i)|;
    MoveWrites(env, cfg, w, moves, i, actor);
    StepOfMove(env, cfg, w, moves, i, p, n, actor);
    CountedIff(env, cfg, w, moves, n, StepsAt(env, cfg, w, moves, n)[p].actedAt);
  }

  /** The service's check finds the actor exactly when it signed by a request later than every break so far. */
  lemma AlreadyVerifiedMovesIff(env: Env, cfg: Config, w: World, moves: seq<Move>, n: nat, actor: UserId)
    requires IsFresh(w) && n <= |moves|
    ensures AlreadyVerifiedThisCycle(StepsAt(env, cfg, w, moves, n), actor)
            <==> SeenByTimes(env, cfg, w, moves, n, actor)
  {
    if AlreadyVerifiedThisCycle(StepsAt(env, cfg, w, moves, n), actor) {
      AlreadyMoves(env, cfg, w, moves, n, actor);
    }
    if SeenByTimes(env, cfg, w, moves, n, actor) {
      MovesAlready(env, cfg, w, moves, n, actor);
    }
  }
}

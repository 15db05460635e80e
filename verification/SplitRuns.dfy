/**
 Whole runs in which every request and every result capture is split into its read and its transaction,
 with others committing in between. Requests commit under a guard; a capture writes the row unguarded,
 and its status from the one it read. The run is lawful exactly as long as no capture that read ASSIGNED
 writes a job that has meanwhile been submitted. Archived and voided rows are kept by the database.
 */
module SplitRuns {
  import opened Wrappers
  import opened CanonicalJobRecord
  import opened JobProtocol
  import opened JobRuns

  /** A request or a capture between its read and its transaction. */
  datatype Pending =
    | PendingRequest(snap: Job, req: JobProtocol.Request)
    | PendingCapture(snap: Job, capture: JobProtocol.Capture)

  datatype World = World(job: Job, pending: map<nat, Pending>)

  datatype Move =
    | Begin(id: nat, req: JobProtocol.Request)
    | BeginCapture(id: nat, capture: JobProtocol.Capture)
    | End(id: nat)

  /** The row after the transaction of `p`, unchanged where it is refused. */
  function Finished(env: Env, cfg: Config, cur: Job, p: Pending): Job {
    match p
    case PendingRequest(snap, req) =>
      var outcome := Commit(env, cfg, cur, snap, req);
      if outcome.Ok? then outcome.value else cur
    case PendingCapture(snap, c) =>
      var outcome := CaptureCommit(cur, snap, c);
      if outcome.Ok? then outcome.value else cur
  }

  function Next(env: Env, cfg: Config, w: World, m: Move): World {
    match m
    case Begin(id, req) =>
      if Precheck(cfg, w.job, req).None? then w.(pending := w.pending[id := PendingRequest(w.job, req)]) else w
    case BeginCapture(id, c) =>
      if CapturePrecheck(cfg, w.job, c).None? then w.(pending := w.pending[id := PendingCapture(w.job, c)]) else w
    case End(id) =>
      if id !in w.pending then w
      else World(Finished(env, cfg, w.job, w.pending[id]), w.pending - {id})
  }

  predicate EndsRequest(w: World, m: Move) {
    m.End? && m.id in w.pending && w.pending[m.id].PendingRequest?
  }

  function RunMoves(env: Env, cfg: Config, w: World, moves: seq<Move>): World {
    if moves == [] then w
    else Next(env, cfg, RunMoves(env, cfg, w, moves[..|moves| - 1]), moves[|moves| - 1])
  }

  // ---------------------------------------------------------------- what every reachable world satisfies

  /** Between two verifications of one stage there is a return or a recall. */
  ghost predicate VerifiedOncePerCycle(steps: seq<Step>) {
    forall i, j | 0 <= i < j < |steps| && steps[i].action == StepVerified && steps[j].action == StepVerified
                  && steps[i].stageOrdinal == steps[j].stageOrdinal ::
      exists k :: i < k < j && IsBreak(steps[k])
  }

  ghost predicate StageShape(cfg: Config, job: Job) {
    && VerifiedOncePerCycle(job.steps)
    && match job.status
       case Scheduled => Cycle(job.steps) == []
       case Assigned => Cycle(job.steps) == []
       case InProgress => Cycle(job.steps) == []
       case Submitted =>
         && job.currentStageOrdinal.Some?
         && 1 <= job.currentStageOrdinal.value <= cfg.stageCount
         && SignedThrough(Cycle(job.steps), job.currentStageOrdinal.value - 1)
       case Verified => false
       case Archived => SignedThrough(Cycle(job.steps), cfg.stageCount)
       case Voided => true
  }

  /** What is pending passed its checks on what it read. */
  ghost predicate Checked(cfg: Config, p: Pending) {
    match p
    case PendingRequest(snap, req) => Precheck(cfg, snap, req).None?
    case PendingCapture(snap, c) => CapturePrecheck(cfg, snap, c).None?
  }

  ghost predicate AllChecked(cfg: Config, w: World) {
    forall id | id in w.pending :: Checked(cfg, w.pending[id])
  }

  ghost predicate WorldInv(cfg: Config, w: World) {
    StageShape(cfg, w.job) && AllChecked(cfg, w)
  }

  /** A captured result that read ASSIGNED writes a job that is no longer ASSIGNED or IN_PROGRESS. */
  ghost predicate StaleWrite(w: World, m: Move) {
    && m.End? && m.id in w.pending && w.pending[m.id].PendingCapture? && IsResult(w.pending[m.id].capture)
    && w.pending[m.id].snap.status == Assigned
    && w.job.status !in {Assigned, InProgress, Archived, Voided}
  }

  function After(env: Env, cfg: Config, w: World, moves: seq<Move>, n: nat): World
    requires n <= |moves|
  {
    RunMoves(env, cfg, w, moves[..n])
  }

  /** No move of the run is a stale write. */
  ghost predicate Timely(env: Env, cfg: Config, w: World, moves: seq<Move>) {
    forall n: nat | n < |moves| :: !StaleWrite(After(env, cfg, w, moves, n), moves[n])
  }

  // ---------------------------------------------------------------- legal edges

  /** The lifecycle edge a request takes, decided from what it read. */
  function TransitionOf(cfg: Config, snap: Job, req: JobProtocol.Request): Transition {
    match req
    case Assign(_, _, _, _) => ASSIGN
    case Submit(_, _, _, _) => SUBMIT
    case Verify(_, _, _, _, _, _, _) => if StageOf(snap, 1) >= cfg.stageCount then VERIFY_FINAL else VERIFY_ADVANCE
    case Return(_, _, _, _) => RETURN
    case Recall(_, _, _) => RECALL
    case Void(_, _, _, _, _, _) => VOID
  }

  /** A commit takes a legal edge from the status held at that moment, whatever was read before. */
  lemma CommitTakesLegalEdge(env: Env, cfg: Config, cur: Job, snap: Job, req: JobProtocol.Request)
    requires Precheck(cfg, snap, req).None? && Commit(env, cfg, cur, snap, req).Ok?
    ensures var t := TransitionOf(cfg, snap, req);
            && IsLegalTransition(cur.status, t)
            && Commit(env, cfg, cur, snap, req).value.status == Target(cur.status, t)
  {
    var u := GuardedUpdate(cfg, cur, snap, req).value;
    UpdateTakesLegalEdge(cfg, cur, snap, req, u);
  }

  lemma UpdateTakesLegalEdge(cfg: Config, cur: Job, snap: Job, req: JobProtocol.Request, u: Update)
    requires Precheck(cfg, snap, req).None? && GuardedUpdate(cfg, cur, snap, req) == Ok(u)
    ensures IsLegalTransition(cur.status, TransitionOf(cfg, snap, req))
    ensures u.row.status == Target(cur.status, TransitionOf(cfg, snap, req))
    ensures u.row.steps == cur.steps && (u.Unsigned? <==> req.Assign?)
  {
  }

  /** The status edge that a move's own transition allows: START for a capture. */
  ghost predicate TakesLegalEdge(env: Env, cfg: Config, w: World, m: Move) {
    var after := Next(env, cfg, w, m).job.status;
    || after == w.job.status
    || (m.End? && m.id in w.pending &&
        var p := w.pending[m.id];
        var t := if p.PendingRequest? then TransitionOf(cfg, p.snap, p.req) else START;
        IsLegalTransition(w.job.status, t) && after == Target(w.job.status, t))
  }

  lemma CaptureTakesLegalEdgeIff(env: Env, cfg: Config, w: World, m: Move)
    requires m.End? && m.id in w.pending && w.pending[m.id].PendingCapture?
    ensures TakesLegalEdge(env, cfg, w, m) <==> !StaleWrite(w, m)
  {
  }

  /** A move leaves the status or takes an edge of its own transition exactly when it is no stale write. */
  lemma ChangeIsLegalIff(env: Env, cfg: Config, w: World, m: Move)
    requires AllChecked(cfg, w)
    ensures TakesLegalEdge(env, cfg, w, m) <==> !StaleWrite(w, m)
  {
    if m.End? && m.id in w.pending {
      var p := w.pending[m.id];
      match p
      case PendingRequest(snap, req) =>
        if Commit(env, cfg, w.job, snap, req).Ok? {
          CommitTakesLegalEdge(env, cfg, w.job, snap, req);
        }
      case PendingCapture(_, _) => CaptureTakesLegalEdgeIff(env, cfg, w, m);
    }
  }

  // ---------------------------------------------------------------- the stage order survives interleaving

  /** No verification in the current cycle is of stage `stage`. */
  ghost predicate StageOpen(cycle: seq<Step>, stage: int) {
    forall i | 0 <= i < |cycle| :: cycle[i].action == StepVerified ==> cycle[i].stageOrdinal != stage
  }

  lemma CycleAt(steps: seq<Step>, i: nat)
    requires |Cycle(steps)| <= |steps| && |steps| - |Cycle(steps)| <= i < |steps|
    ensures Cycle(steps)[i - (|steps| - |Cycle(steps)|)] == steps[i]
  {
    CycleIsSuffix(steps);
  }

  lemma NotInOpenCycle(steps: seq<Step>, stage: int, i: nat)
    requires |Cycle(steps)| <= |steps| && StageOpen(Cycle(steps), stage)
    requires i < |steps| && steps[i].action == StepVerified && steps[i].stageOrdinal == stage
    ensures i < |steps| - |Cycle(steps)|
  {
    if i >= |steps| - |Cycle(steps)| {
      CycleAt(steps, i);
    }
  }

  /** An earlier verification of an open stage lies before a break. */
  lemma BreakSince(steps: seq<Step>, stage: int, i: nat) returns (k: nat)
    requires StageOpen(Cycle(steps), stage)
    requires i < |steps| && steps[i].action == StepVerified && steps[i].stageOrdinal == stage
    ensures i < k < |steps| && IsBreak(steps[k])
  {
    BreakBefore(steps);
    NotInOpenCycle(steps, stage, i);
    k := |steps| - |Cycle(steps)| - 1;
  }

  lemma AppendOnce(steps: seq<Step>, t: Step)
    requires VerifiedOncePerCycle(steps)
    requires t.action == StepVerified ==> StageOpen(Cycle(steps), t.stageOrdinal)
    ensures VerifiedOncePerCycle(steps + [t])
  {
    var all := steps + [t];
    forall i, j | 0 <= i < j < |all| && all[i].action == StepVerified && all[j].action == StepVerified
                  && all[i].stageOrdinal == all[j].stageOrdinal
      ensures exists k :: i < k < j && IsBreak(all[k]) {
      if j == |steps| {
        var k := BreakSince(steps, t.stageOrdinal, i);
        assert all[k] == steps[k];
      } else {
        var k :| i < k < j && IsBreak(steps[k]);
        assert all[k] == steps[k];
      }
    }
  }

  /** The cycle starts right after a break, if anything precedes it. */
  lemma {:induction false} BreakBefore(steps: seq<Step>)
    ensures |Cycle(steps)| <= |steps|
    ensures |Cycle(steps)| < |steps| ==> IsBreak(steps[|steps| - |Cycle(steps)| - 1])
  {
    if steps != [] && !IsBreak(steps[|steps| - 1]) {
      BreakBefore(steps[..|steps| - 1]);
    }
  }

  /** A committed verification signs the stage that the row holds and moves to the next, or archives. */
  lemma VerifyAdvances(cfg: Config, cur: Job, snap: Job, req: JobProtocol.Request, u: Update)
    requires Precheck(cfg, snap, req).None? && req.Verify?
    requires GuardedUpdate(cfg, cur, snap, req) == Ok(u)
    ensures cur.status == Submitted && u.Signed? && u.step.action == StepVerified
    ensures cur.currentStageOrdinal == Some(u.step.stageOrdinal) && u.step.stageOrdinal <= cfg.stageCount
    ensures u.row.status == (if u.step.stageOrdinal >= cfg.stageCount then Archived else Submitted)
    ensures u.row.status == Submitted ==> u.row.currentStageOrdinal == Some(u.step.stageOrdinal + 1)
  {
  }

  lemma VerifyKeepsStages(cfg: Config, cur: Job, snap: Job, req: JobProtocol.Request, u: Update, t: Step)
    requires StageShape(cfg, cur) && Precheck(cfg, snap, req).None? && req.Verify?
    requires GuardedUpdate(cfg, cur, snap, req) == Ok(u) && u.Signed? && Completes(u.step, t)
    ensures StageShape(cfg, u.row.(steps := cur.steps + [t]))
  {
    VerifyAdvances(cfg, cur, snap, req, u);
    NextStageShape(cfg, cur, u.row, t);
  }

  lemma NextStageShape(cfg: Config, cur: Job, row: Job, t: Step)
    requires StageShape(cfg, cur) && cur.status == Submitted
    requires t.action == StepVerified && cur.currentStageOrdinal == Some(t.stageOrdinal)
    requires row.status == (if t.stageOrdinal >= cfg.stageCount then Archived else Submitted)
    requires row.status == Submitted ==> row.currentStageOrdinal == Some(t.stageOrdinal + 1)
    ensures StageShape(cfg, row.(steps := cur.steps + [t]))
  {
    var cycle := Cycle(cur.steps);
    CycleAppend(cur.steps, t);
    assert StageOpen(cycle, t.stageOrdinal);
    NextStage(cycle, t.stageOrdinal - 1, t);
    AppendOnce(cur.steps, t);
  }

  lemma OtherKeepsStages(cfg: Config, cur: Job, snap: Job, req: JobProtocol.Request, u: Update, t: Step)
    requires StageShape(cfg, cur) && cfg.stageCount >= 1 && !req.Verify?
    requires GuardedUpdate(cfg, cur, snap, req) == Ok(u) && u.Signed? && Completes(u.step, t)
    ensures StageShape(cfg, u.row.(steps := cur.steps + [t]))
  {
    CycleAppend(cur.steps, t);
    AppendOnce(cur.steps, t);
  }

  lemma SignedKeepsStages(cfg: Config, cur: Job, snap: Job, req: JobProtocol.Request, u: Update, t: Step)
    requires StageShape(cfg, cur) && cfg.stageCount >= 1 && Precheck(cfg, snap, req).None?
    requires GuardedUpdate(cfg, cur, snap, req) == Ok(u) && u.Signed? && Completes(u.step, t)
    ensures StageShape(cfg, u.row.(steps := cur.steps + [t]))
  {
    if req.Verify? {
      VerifyKeepsStages(cfg, cur, snap, req, u, t);
    } else {
      OtherKeepsStages(cfg, cur, snap, req, u, t);
    }
  }

  lemma NextStage(cycle: seq<Step>, stage: int, t: Step)
    requires SignedThrough(cycle, stage) && t.action == StepVerified && t.stageOrdinal == stage + 1
    ensures SignedThrough(cycle + [t], stage + 1)
  {
  }

  lemma CommitKeepsStages(env: Env, cfg: Config, cur: Job, snap: Job, req: JobProtocol.Request)
    requires StageShape(cfg, cur) && cfg.stageCount >= 1
    requires Precheck(cfg, snap, req).None? && Commit(env, cfg, cur, snap, req).Ok?
    ensures StageShape(cfg, Commit(env, cfg, cur, snap, req).value)
  {
    var u := GuardedUpdate(cfg, cur, snap, req).value;
    UpdateTakesLegalEdge(cfg, cur, snap, req, u);
    FinishKeepsStages(env, cfg, cur, snap, req, u);
  }

  lemma FinishKeepsStages(env: Env, cfg: Config, cur: Job, snap: Job, req: JobProtocol.Request, u: Update)
    requires StageShape(cfg, cur) && cfg.stageCount >= 1 && Precheck(cfg, snap, req).None?
    requires GuardedUpdate(cfg, cur, snap, req) == Ok(u) && Finish(env, snap, u).Ok?
    requires u.row.steps == cur.steps && (u.Unsigned? <==> req.Assign?)
    ensures StageShape(cfg, Finish(env, snap, u).value)
  {
    if u.Signed? {
      var d := env.contentHash(RecordOf(snap, u.status, u.submitter, u.row.steps + [u.step])).value;
      SignedKeepsStages(cfg, cur, snap, req, u, u.step.(contentHash := d, signature := env.sign(d)));
    } else {
      AssignKeepsStages(cfg, cur, snap, req, u);
    }
  }

  lemma AssignKeepsStages(cfg: Config, cur: Job, snap: Job, req: JobProtocol.Request, u: Update)
    requires StageShape(cfg, cur) && Precheck(cfg, snap, req).None? && req.Assign?
    requires GuardedUpdate(cfg, cur, snap, req) == Ok(u)
    ensures StageShape(cfg, u.row)
  {
  }

  lemma CaptureKeepsStages(env: Env, cfg: Config, w: World, m: Move)
    requires StageShape(cfg, w.job) && m.End? && m.id in w.pending && w.pending[m.id].PendingCapture?
    requires !StaleWrite(w, m)
    ensures StageShape(cfg, Next(env, cfg, w, m).job)
  {
  }

  lemma NextChecked(env: Env, cfg: Config, w: World, m: Move)
    requires AllChecked(cfg, w)
    ensures AllChecked(cfg, Next(env, cfg, w, m))
  {
  }

  lemma NextKeeps(env: Env, cfg: Config, w: World, m: Move)
    requires WorldInv(cfg, w) && cfg.stageCount >= 1 && !StaleWrite(w, m)
    ensures WorldInv(cfg, Next(env, cfg, w, m))
  {
    NextChecked(env, cfg, w, m);
    if m.End? && m.id in w.pending {
      match w.pending[m.id]
      case PendingRequest(snap, req) =>
        if Commit(env, cfg, w.job, snap, req).Ok? {
          CommitKeepsStages(env, cfg, w.job, snap, req);
        }
      case PendingCapture(_, _) => CaptureKeepsStages(env, cfg, w, m);
    }
  }

  lemma {:induction false} RunChecked(env: Env, cfg: Config, w: World, moves: seq<Move>)
    requires AllChecked(cfg, w)
    ensures AllChecked(cfg, RunMoves(env, cfg, w, moves))
  {
    if moves != [] {
      RunChecked(env, cfg, w, moves[..|moves| - 1]);
      NextChecked(env, cfg, RunMoves(env, cfg, w, moves[..|moves| - 1]), moves[|moves| - 1]);
    }
  }

  lemma AfterPrefix(env: Env, cfg: Config, w: World, moves: seq<Move>, n: nat, m: nat)
    requires m <= n <= |moves|
    ensures moves[..n][..m] == moves[..m]
    ensures After(env, cfg, w, moves[..n], m) == After(env, cfg, w, moves, m)
  {
    assert moves[..n][..m] == moves[..m];
  }

  lemma TimelyPrefix(env: Env, cfg: Config, w: World, moves: seq<Move>, n: nat)
    requires Timely(env, cfg, w, moves) && n <= |moves|
    ensures Timely(env, cfg, w, moves[..n])
  {
    forall m: nat | m < n ensures !StaleWrite(After(env, cfg, w, moves[..n], m), moves[..n][m]) {
      AfterPrefix(env, cfg, w, moves, n, m);
    }
  }

  lemma {:induction false} RunMovesKeep(env: Env, cfg: Config, w: World, moves: seq<Move>)
    requires WorldInv(cfg, w) && cfg.stageCount >= 1 && Timely(env, cfg, w, moves)
    ensures WorldInv(cfg, RunMoves(env, cfg, w, moves))
  {
    if moves != [] {
      var last := |moves| - 1;
      TimelyPrefix(env, cfg, w, moves, last);
      RunMovesKeep(env, cfg, w, moves[..last]);
      NextKeeps(env, cfg, After(env, cfg, w, moves, last), moves[last]);
    }
  }

  // ---------------------------------------------------------------- the theorems

  ghost predicate IsFresh(w: World) {
    IsNew(w.job) && w.pending == map[]
  }

  /** The status changes of a run are all legal exactly when none of its moves is a stale write. */
  lemma EveryChangeIsLegalIff(env: Env, cfg: Config, w: World, moves: seq<Move>)
    requires IsFresh(w)
    ensures (forall n: nat | n < |moves| :: TakesLegalEdge(env, cfg, After(env, cfg, w, moves, n), moves[n]))
            <==> Timely(env, cfg, w, moves)
  {
    forall n: nat | n < |moves|
      ensures TakesLegalEdge(env, cfg, After(env, cfg, w, moves, n), moves[n])
              <==> !StaleWrite(After(env, cfg, w, moves, n), moves[n])
    {
      RunChecked(env, cfg, w, moves[..n]);
      ChangeIsLegalIff(env, cfg, After(env, cfg, w, moves, n), moves[n]);
    }
  }

  /**
   In every interleaving without a stale write each stage is verified at most once per submission cycle,
   an archived job is verified through every stage in order, and no job rests in VERIFIED.
   */
  lemma StagesInEveryInterleaving(env: Env, cfg: Config, w: World, moves: seq<Move>)
    requires IsFresh(w) && cfg.stageCount >= 1 && Timely(env, cfg, w, moves)
    ensures var job := RunMoves(env, cfg, w, moves).job;
            && VerifiedOncePerCycle(job.steps)
            && job.status != Verified
            && (job.status == Archived ==> SignedThrough(Cycle(job.steps), cfg.stageCount))
  {
    RunMovesKeep(env, cfg, w, moves);
  }

  /** No move leaves VOIDED, and none leaves ARCHIVED but to VOIDED. */
  lemma TerminalKept(env: Env, cfg: Config, w: World, m: Move)
    requires AllChecked(cfg, w)
    ensures w.job.status == Voided ==> Next(env, cfg, w, m).job.status == Voided
    ensures w.job.status == Archived ==> Next(env, cfg, w, m).job.status in {Archived, Voided}
  {
    ChangeIsLegalIff(env, cfg, w, m);
  }

  /** VOIDED is never left, and ARCHIVED only to VOIDED, whatever is in flight. */
  lemma {:induction false} TerminalStatusesHold(env: Env, cfg: Config, w: World, moves: seq<Move>)
    requires AllChecked(cfg, w)
    ensures w.job.status == Voided ==> RunMoves(env, cfg, w, moves).job.status == Voided
    ensures w.job.status == Archived ==> RunMoves(env, cfg, w, moves).job.status in {Archived, Voided}
  {
    if moves != [] {
      var last := |moves| - 1;
      TerminalStatusesHold(env, cfg, w, moves[..last]);
      RunChecked(env, cfg, w, moves[..last]);
      TerminalKept(env, cfg, After(env, cfg, w, moves, last), moves[last]);
    }
  }

  // ---------------------------------------------------------------- a run that is not lawful

  lemma RunNext(env: Env, cfg: Config, w: World, moves: seq<Move>, m: Move)
    ensures RunMoves(env, cfg, w, moves + [m]) == Next(env, cfg, RunMoves(env, cfg, w, moves), m)
    ensures moves + [m] != [] && (moves + [m])[..|moves|] == moves
  {
    assert (moves + [m])[..|moves|] == moves;
  }

  /** Records without decimals always have a content hash. */
  ghost predicate HashesPlainRecords(env: Env) {
    forall r: RecordInput | r.measurementResults == [] && r.partsUsed == [] :: env.contentHash(r).Some?
  }

  /** A result that can be recorded on a job whose draft version does not matter. */
  ghost predicate Recordable(cfg: Config, c: JobProtocol.Capture) {
    c.RecordItem? && c.ifMatch.None? && c.templateItemId in cfg.templateItems
  }

  /** Two captures read an ASSIGNED job; one writes, the job is submitted, and then the other writes. */
  function LateCapture(c1: JobProtocol.Capture, c2: JobProtocol.Capture, submit: JobProtocol.Request): seq<Move> {
    [BeginCapture(1, c1), BeginCapture(2, c2), End(2), Begin(0, submit), End(0)]
  }

  lemma TwoCapturesRead(env: Env, cfg: Config, w: World, c1: JobProtocol.Capture, c2: JobProtocol.Capture)
    requires w.pending == map[] && w.job.status == Assigned && Recordable(cfg, c1) && Recordable(cfg, c2)
    ensures
      Next(env, cfg, Next(env, cfg, Next(env, cfg, w, BeginCapture(1, c1)), BeginCapture(2, c2)), End(2))
      == World(CaptureWrite(w.job, w.job, c2), map[1 := PendingCapture(w.job, c1)])
  {
  }

  lemma SubmittedMeanwhile(env: Env, cfg: Config, job: Job, p: Pending, submit: JobProtocol.Request)
    requires HashesPlainRecords(env) && cfg.mandatoryItems == {} && submit.Submit? && submit.titleFilled
    requires job.status == InProgress && job.steps == [] && job.measurementResults == [] && job.partRows == []
    ensures
      var after := Next(env, cfg, Next(env, cfg, World(job, map[1 := p]), Begin(0, submit)), End(0));
      && after.pending == map[1 := p] && after.job.status == Submitted
      && |after.job.steps| == 1 && after.job.steps[0].action == StepSubmitted
  {
    assert OutstandingMandatoryItems(cfg, job) == {};
  }

  lemma ReopenedBy(env: Env, cfg: Config, cur: Job, snap: Job, c: JobProtocol.Capture)
    requires cur.status == Submitted && snap.status == Assigned && c.RecordItem?
    ensures
      var w := World(cur, map[1 := PendingCapture(snap, c)]);
      var after := Next(env, cfg, w, End(1)).job;
      StaleWrite(w, End(1)) && after.status == InProgress && after.steps == cur.steps
  {
  }

  /** The late write takes a submitted job back to IN_PROGRESS with no return or recall. */
  lemma LateCaptureReopens(
    env: Env, cfg: Config, w: World, c1: JobProtocol.Capture, c2: JobProtocol.Capture, submit: JobProtocol.Request)
    requires HashesPlainRecords(env) && cfg.mandatoryItems == {}
    requires IsFresh(w) && w.job.status == Assigned && w.job.measurementResults == [] && w.job.partRows == []
    requires Recordable(cfg, c1) && Recordable(cfg, c2) && submit.Submit? && submit.titleFilled
    ensures
      var moves := LateCapture(c1, c2, submit);
      var before, after := RunMoves(env, cfg, w, moves).job, RunMoves(env, cfg, w, moves + [End(1)]).job;
      && before.status == Submitted && after.status == InProgress
      && after.steps == before.steps && |after.steps| == 1 && after.steps[0].action == StepSubmitted
      && !Timely(env, cfg, w, moves + [End(1)])
  {
    var moves := LateCapture(c1, c2, submit);
    var job := CaptureWrite(w.job, w.job, c2);
    FiveMoves(env, cfg, w, moves[0], moves[1], moves[2], moves[3], moves[4]);
    TwoCapturesRead(env, cfg, w, c1, c2);
    SubmittedMeanwhile(env, cfg, job, PendingCapture(w.job, c1), submit);
    var w5 := RunMoves(env, cfg, w, moves);
    ReopenedBy(env, cfg, w5.job, w.job, c1);
    RunNext(env, cfg, w, moves, End(1));
    assert After(env, cfg, w, moves + [End(1)], 5) == w5;
  }

  lemma FiveMoves(env: Env, cfg: Config, w: World, m0: Move, m1: Move, m2: Move, m3: Move, m4: Move)
    ensures
      RunMoves(env, cfg, w, [m0, m1, m2, m3, m4])
      == Next(env, cfg, Next(env, cfg, Next(env, cfg, Next(env, cfg, Next(env, cfg, w, m0), m1), m2), m3), m4)
  {
    RunNext(env, cfg, w, [], m0);
    RunNext(env, cfg, w, [m0], m1);
    RunNext(env, cfg, w, [m0, m1], m2);
    RunNext(env, cfg, w, [m0, m1, m2], m3);
    RunNext(env, cfg, w, [m0, m1, m2, m3], m4);
    assert [] + [m0] == [m0] && [m0] + [m1] == [m0, m1] && [m0, m1] + [m2] == [m0, m1, m2];
    assert [m0, m1, m2] + [m3] == [m0, m1, m2, m3] && [m0, m1, m2, m3] + [m4] == [m0, m1, m2, m3, m4];
  }
}

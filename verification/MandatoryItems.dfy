/**
 The completeness gate: a submission is let through exactly when every mandatory item of the job's revision has
 a result, and so every submitted or archived job has them all, whatever is in flight.
 */
module MandatoryItems {
  import opened Texts
  import opened CanonicalJobRecord
  import opened JobProtocol
  import opened JobRuns
  import opened SplitRuns

  ghost predicate IsResulted(rows: seq<ItemResult>, x: Text) {
    exists i | 0 <= i < |rows| :: rows[i].templateItemId == x
  }

  ghost predicate HasItem(job: Job, x: Text) {
    IsResulted(job.itemResults, x)
  }

  ghost predicate HasMandatory(cfg: Config, job: Job) {
    forall x | x in cfg.mandatoryItems :: HasItem(job, x)
  }

  // ---------------------------------------------------------------- no result is ever dropped

  ghost predicate Grows(a: Job, b: Job) {
    forall x: Text | HasItem(a, x) :: HasItem(b, x)
  }

  lemma {:induction false} UpsertKeepsItem(rows: seq<ItemResult>, c: JobProtocol.Capture, x: Text)
    requires c.RecordItem? && IsResulted(rows, x)
    ensures IsResulted(Upsert(rows, ItemKey(), ItemWrite(c)), x)
  {
    var after := Upsert(rows, ItemKey(), ItemWrite(c));
    var i :| 0 <= i < |rows| && rows[i].templateItemId == x;
    if i == 0 {
      assert after[0].templateItemId == x;
    } else if rows[0].templateItemId == c.templateItemId {
      assert after[i] == rows[i];
    } else {
      assert rows[1..][i - 1].templateItemId == x;
      UpsertKeepsItem(rows[1..], c, x);
      var tail := Upsert(rows[1..], ItemKey(), ItemWrite(c));
      var k :| 0 <= k < |tail| && tail[k].templateItemId == x;
      assert after[k + 1] == tail[k];
    }
  }

  lemma CaptureGrows(cur: Job, snap: Job, c: JobProtocol.Capture)
    ensures Grows(cur, CaptureWrite(cur, snap, c))
  {
    if c.RecordItem? {
      forall x: Text | HasItem(cur, x) ensures HasItem(CaptureWrite(cur, snap, c), x) {
        UpsertKeepsItem(cur.itemResults, c, x);
      }
    }
  }

  lemma CommitGrows(env: Env, cfg: Config, cur: Job, snap: Job, req: JobProtocol.Request)
    requires Commit(env, cfg, cur, snap, req).Ok?
    ensures Commit(env, cfg, cur, snap, req).value.itemResults == cur.itemResults
  {
  }

  lemma NextGrows(env: Env, cfg: Config, w: World, m: Move)
    ensures Grows(w.job, Next(env, cfg, w, m).job)
  {
    if m.End? && m.id in w.pending {
      match w.pending[m.id]
      case PendingRequest(snap, req) =>
        if Commit(env, cfg, w.job, snap, req).Ok? {
          CommitGrows(env, cfg, w.job, snap, req);
        }
      case PendingCapture(snap, c) => CaptureGrows(w.job, snap, c);
    }
  }

  // ---------------------------------------------------------------- the gate

  lemma OutstandingIff(cfg: Config, job: Job)
    ensures OutstandingMandatoryItems(cfg, job) == {} <==> HasMandatory(cfg, job)
  {
    var outstanding := OutstandingMandatoryItems(cfg, job);
    forall x ensures x in outstanding <==> x in cfg.mandatoryItems && !HasItem(job, x) {
    }
  }

  /**
   A submission that reads an IN_PROGRESS job is refused before its transaction exactly when an item is missing, or
   the number in the title.
   */
  lemma SubmissionRefusedIff(env: Env, cfg: Config, w: World, id: nat, req: JobProtocol.Request)
    requires req.Submit? && w.job.status == InProgress && id !in w.pending
    ensures Next(env, cfg, w, Begin(id, req)) ==
      if HasMandatory(cfg, w.job) && req.titleFilled
      then World(w.job, w.pending[id := PendingRequest(w.job, req)])
      else w
  {
    OutstandingIff(cfg, w.job);
  }

  // ---------------------------------------------------------------- every run

  ghost predicate IsSubmission(p: Pending) {
    p.PendingRequest? && p.req.Submit?
  }

  ghost predicate Complete(cfg: Config, job: Job) {
    job.status == Submitted || job.status == Archived ==> HasMandatory(cfg, job)
  }

  /** Frozen jobs are complete, and so is what a submission in flight read, none of which is gone since. */
  ghost predicate GateInv(cfg: Config, w: World) {
    && AllChecked(cfg, w) && Complete(cfg, w.job)
    && forall id | id in w.pending :: PendingComplete(cfg, w.job, w.pending[id])
  }

  ghost predicate PendingComplete(cfg: Config, job: Job, p: Pending) {
    Grows(p.snap, job) && (IsSubmission(p) ==> HasMandatory(cfg, p.snap))
  }

  lemma CommitCompletes(env: Env, cfg: Config, cur: Job, snap: Job, req: JobProtocol.Request)
    requires Complete(cfg, cur) && PendingComplete(cfg, cur, PendingRequest(snap, req))
    requires Precheck(cfg, snap, req).None? && Commit(env, cfg, cur, snap, req).Ok?
    ensures Complete(cfg, Commit(env, cfg, cur, snap, req).value)
  {
    CommitGrows(env, cfg, cur, snap, req);
    CommitTakesLegalEdge(env, cfg, cur, snap, req);
  }

  lemma CaptureCompletes(cfg: Config, cur: Job, snap: Job, c: JobProtocol.Capture)
    requires Complete(cfg, cur)
    ensures Complete(cfg, CaptureWrite(cur, snap, c))
  {
    CaptureGrows(cur, snap, c);
  }

  lemma FinishedCompletes(env: Env, cfg: Config, w: World, id: nat)
    requires GateInv(cfg, w) && id in w.pending
    ensures Complete(cfg, Finished(env, cfg, w.job, w.pending[id]))
  {
    assert Checked(cfg, w.pending[id]) && PendingComplete(cfg, w.job, w.pending[id]);
    match w.pending[id]
    case PendingRequest(snap, req) =>
      if Commit(env, cfg, w.job, snap, req).Ok? {
        CommitCompletes(env, cfg, w.job, snap, req);
      }
    case PendingCapture(snap, c) => CaptureCompletes(cfg, w.job, snap, c);
  }

  lemma StillPendingComplete(cfg: Config, a: Job, b: Job, p: Pending)
    requires PendingComplete(cfg, a, p) && Grows(a, b)
    ensures PendingComplete(cfg, b, p)
  {
  }

  lemma NextComplete(env: Env, cfg: Config, w: World, m: Move)
    requires GateInv(cfg, w)
    ensures GateInv(cfg, Next(env, cfg, w, m))
  {
    var after := Next(env, cfg, w, m);
    NextChecked(env, cfg, w, m);
    NextGrows(env, cfg, w, m);
    if m.End? {
      if m.id in w.pending {
        FinishedCompletes(env, cfg, w, m.id);
      }
      forall id | id in after.pending ensures PendingComplete(cfg, after.job, after.pending[id]) {
        StillPendingComplete(cfg, w.job, after.job, w.pending[id]);
      }
    } else {
      OutstandingIff(cfg, w.job);
      forall id | id in after.pending ensures PendingComplete(cfg, after.job, after.pending[id]) {
        assert id != m.id ==> PendingComplete(cfg, w.job, w.pending[id]);
      }
    }
  }

  lemma {:induction false} RunComplete(env: Env, cfg: Config, w: World, moves: seq<Move>)
    requires IsFresh(w)
    ensures GateInv(cfg, RunMoves(env, cfg, w, moves))
  {
    if moves != [] {
      RunComplete(env, cfg, w, moves[..|moves| - 1]);
      NextComplete(env, cfg, RunMoves(env, cfg, w, moves[..|moves| - 1]), moves[|moves| - 1]);
    }
  }

  // ---------------------------------------------------------------- the theorems

  /** In every interleaving a submitted or archived job has a result for each mandatory item. */
  lemma FrozenJobIsComplete(env: Env, cfg: Config, w: World, moves: seq<Move>)
    requires IsFresh(w) && RunMoves(env, cfg, w, moves).job.status in {Submitted, Archived}
    ensures forall x | x in cfg.mandatoryItems :: HasItem(RunMoves(env, cfg, w, moves).job, x)
  {
    RunComplete(env, cfg, w, moves);
  }

  /** And the job that a submission read, when it started, had them all. */
  lemma SubmissionReadAll(env: Env, cfg: Config, w: World, moves: seq<Move>, id: nat)
    requires IsFresh(w) && id in RunMoves(env, cfg, w, moves).pending
    requires IsSubmission(RunMoves(env, cfg, w, moves).pending[id])
    ensures forall x | x in cfg.mandatoryItems :: HasItem(RunMoves(env, cfg, w, moves).pending[id].snap, x)
  {
    RunComplete(env, cfg, w, moves);
    assert PendingComplete(cfg, RunMoves(env, cfg, w, moves).job, RunMoves(env, cfg, w, moves).pending[id]);
  }

  /** One request at a time. */
  lemma {:induction false} AtomicJobIsComplete(env: Env, cfg: Config, job: Job, events: seq<Event>)
    requires IsNew(job)
    ensures Complete(cfg, Run(env, cfg, job, events))
  {
    if events != [] {
      var before := Run(env, cfg, job, events[..|events| - 1]);
      AtomicJobIsComplete(env, cfg, job, events[..|events| - 1]);
      match events[|events| - 1]
      case Request(r) =>
        OutstandingIff(cfg, before);
        if Precheck(cfg, before, r).None? && Commit(env, cfg, before, before, r).Ok? {
          CommitCompletes(env, cfg, before, before, r);
        }
      case Capture(c) => CaptureCompletes(cfg, before, before, c);
    }
  }
}

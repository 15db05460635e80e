/**
 The newest signature of a job when requests and captures interleave. A request signs what it read
 before its transaction; what other moves wrote to the results or the submitter after that read is in the
 row, but not in the signature.
 */
module InterleavedSignatures {
  import opened Wrappers
  import opened Texts
  import opened CanonicalJobRecord
  import opened JobProtocol
  import opened JobRuns
  import opened SplitRuns
  import opened RowWrites
  import opened RecordIntegrity

  // ---------------------------------------------------------------- what moves write

  /** A write to data that signatures bind: a captured result, or the submitter of a new submission. */
  datatype Write = Captured(capture: JobProtocol.Capture) | Resubmitted(submitter: Submitter)

  /** What a move writes; reads, assignments, verifications, returns, recalls and voids write none of it. */
  function Written(env: Env, cfg: Config, w: World, m: Move): seq<Write> {
    if !m.End? || m.id !in w.pending then []
    else
      match w.pending[m.id]
      case PendingCapture(snap, c) => if CaptureCommit(w.job, snap, c).Ok? then [Captured(c)] else []
      case PendingRequest(snap, req) =>
        if req.Submit? && Commit(env, cfg, w.job, snap, req).Ok?
        then [Resubmitted(Submitter(Some(req.actor), Some(req.now)))]
        else []
  }

  function Writes(env: Env, cfg: Config, w: World, moves: seq<Move>): seq<Write> {
    if moves == [] then []
    else
      var init := moves[..|moves| - 1];
      Writes(env, cfg, w, init) + Written(env, cfg, RunMoves(env, cfg, w, init), moves[|moves| - 1])
  }

  /** The row writes of one kind among the writes, in order. */
  function WritesOf<T>(ws: seq<Write>, of: JobProtocol.Capture -> seq<RowWrite<T>>): seq<RowWrite<T>> {
    if ws == [] then []
    else
      var last := ws[|ws| - 1];
      WritesOf(ws[..|ws| - 1], of) + if last.Captured? then of(last.capture) else []
  }

  function ItemWriteOf(): JobProtocol.Capture -> seq<RowWrite<ItemResult>> {
    (c: JobProtocol.Capture) => if c.RecordItem? then [ItemWrite(c)] else []
  }

  function MeasurementWriteOf(): JobProtocol.Capture -> seq<RowWrite<MeasurementResult>> {
    (c: JobProtocol.Capture) => if c.RecordMeasurement? then [MeasurementWrite(c)] else []
  }

  function PartWriteOf(): JobProtocol.Capture -> seq<RowWrite<PartRow>> {
    (c: JobProtocol.Capture) => if c.RecordPart? || c.UpsertPart? then [PartWrite(c)] else []
  }

  function AttachmentWriteOf(): JobProtocol.Capture -> seq<RowWrite<Attachment>> {
    (c: JobProtocol.Capture) => if c.Attach? then [AttachmentWrite(c)] else []
  }

  function ItemWrites(ws: seq<Write>): seq<RowWrite<ItemResult>> {
    WritesOf(ws, ItemWriteOf())
  }

  function MeasurementWrites(ws: seq<Write>): seq<RowWrite<MeasurementResult>> {
    WritesOf(ws, MeasurementWriteOf())
  }

  function PartWrites(ws: seq<Write>): seq<RowWrite<PartRow>> {
    WritesOf(ws, PartWriteOf())
  }

  function AttachmentWrites(ws: seq<Write>): seq<RowWrite<Attachment>> {
    WritesOf(ws, AttachmentWriteOf())
  }

  /** The submitter of the newest submission among the writes; `s` where there is none. */
  function LastSubmitter(s: Submitter, ws: seq<Write>): Submitter {
    if ws == [] then s
    else if ws[|ws| - 1].Resubmitted? then ws[|ws| - 1].submitter
    else LastSubmitter(s, ws[..|ws| - 1])
  }

  function SubmitterOf(job: Job): Submitter {
    Submitter(job.submittedBy, job.submittedAt)
  }

  /** The job holds what `from` held, as the writes left it. */
  ghost predicate HoldsAfter(from: Job, ws: seq<Write>, job: Job) {
    && job.itemResults == UpsertAll(from.itemResults, ItemKey(), ItemWrites(ws))
    && job.measurementResults == UpsertAll(from.measurementResults, MeasurementKey(), MeasurementWrites(ws))
    && job.partRows == UpsertAll(from.partRows, PartKey(), PartWrites(ws))
    && job.attachments == UpsertAll(from.attachments, AttachmentId(), AttachmentWrites(ws))
    && SubmitterOf(job) == LastSubmitter(SubmitterOf(from), ws)
    && SameFrame(from, job)
  }

  /** What no move changes. */
  ghost predicate SameFrame(a: Job, b: Job) {
    && a.id == b.id && a.jobNumber == b.jobNumber && a.assetId == b.assetId && a.frequency == b.frequency
    && a.revision == b.revision
  }

  /** The captured rows are the same. */
  ghost predicate SameCaptured(a: Job, b: Job) {
    && a.itemResults == b.itemResults && a.measurementResults == b.measurementResults
    && a.partRows == b.partRows && a.attachments == b.attachments
  }

  lemma OneMoreOf<T>(ws: seq<Write>, x: Write, of: JobProtocol.Capture -> seq<RowWrite<T>>)
    ensures WritesOf(ws + [x], of) == WritesOf(ws, of) + if x.Captured? then of(x.capture) else []
  {
    assert (ws + [x])[..|ws|] == ws;
  }

  lemma OneMoreSubmitter(ws: seq<Write>, x: Write, s: Submitter)
    ensures LastSubmitter(s, ws + [x]) == if x.Resubmitted? then x.submitter else LastSubmitter(s, ws)
  {
    assert (ws + [x])[..|ws|] == ws;
  }

  lemma UpsertOne<T>(rows: seq<T>, key: T -> Text, ws: seq<RowWrite<T>>, w: RowWrite<T>)
    ensures UpsertAll(rows, key, ws + [w]) == Upsert(UpsertAll(rows, key, ws), key, w)
  {
    assert (ws + [w])[..|ws|] == ws;
  }

  /** One more capture, on the rows of one kind. */
  lemma UpsertNext<T>(
    rows: seq<T>, key: T -> Text, ws: seq<Write>, x: Write, of: JobProtocol.Capture -> seq<RowWrite<T>>)
    requires x.Captured? ==> |of(x.capture)| <= 1
    ensures
      var before := UpsertAll(rows, key, WritesOf(ws, of));
      UpsertAll(rows, key, WritesOf(ws + [x], of))
      == if x.Captured? && of(x.capture) != [] then Upsert(before, key, of(x.capture)[0]) else before
  {
    var earlier := WritesOf(ws, of);
    OneMoreOf(ws, x, of);
    if x.Captured? && of(x.capture) != [] {
      var w := of(x.capture)[0];
      assert WritesOf(ws + [x], of) == earlier + [w];
      UpsertOne(rows, key, earlier, w);
    } else {
      assert WritesOf(ws + [x], of) == earlier;
    }
  }

  lemma WriteHolds(from: Job, ws: seq<Write>, x: Write)
    ensures
      var before, after := UpsertAll(from.itemResults, ItemKey(), ItemWrites(ws)),
                           UpsertAll(from.itemResults, ItemKey(), ItemWrites(ws + [x]));
      after == if x.Captured? && x.capture.RecordItem? then Upsert(before, ItemKey(), ItemWrite(x.capture)) else before
    ensures
      var before, after := UpsertAll(from.measurementResults, MeasurementKey(), MeasurementWrites(ws)),
                           UpsertAll(from.measurementResults, MeasurementKey(), MeasurementWrites(ws + [x]));
      after == if x.Captured? && x.capture.RecordMeasurement?
               then Upsert(before, MeasurementKey(), MeasurementWrite(x.capture)) else before
    ensures
      var before, after := UpsertAll(from.partRows, PartKey(), PartWrites(ws)),
                           UpsertAll(from.partRows, PartKey(), PartWrites(ws + [x]));
      after == if x.Captured? && (x.capture.RecordPart? || x.capture.UpsertPart?)
               then Upsert(before, PartKey(), PartWrite(x.capture)) else before
    ensures
      var before, after := UpsertAll(from.attachments, AttachmentId(), AttachmentWrites(ws)),
                           UpsertAll(from.attachments, AttachmentId(), AttachmentWrites(ws + [x]));
      after == if x.Captured? && x.capture.Attach?
               then Upsert(before, AttachmentId(), AttachmentWrite(x.capture)) else before
  {
    UpsertNext(from.itemResults, ItemKey(), ws, x, ItemWriteOf());
    UpsertNext(from.measurementResults, MeasurementKey(), ws, x, MeasurementWriteOf());
    UpsertNext(from.partRows, PartKey(), ws, x, PartWriteOf());
    UpsertNext(from.attachments, AttachmentId(), ws, x, AttachmentWriteOf());
  }

  lemma CaptureHolds(from: Job, ws: seq<Write>, cur: Job, snap: Job, c: JobProtocol.Capture)
    requires HoldsAfter(from, ws, cur)
    ensures HoldsAfter(from, ws + [Captured(c)], CaptureWrite(cur, snap, c))
  {
    WriteHolds(from, ws, Captured(c));
    OneMoreSubmitter(ws, Captured(c), SubmitterOf(from));
  }

  lemma SubmitHolds(
    env: Env, cfg: Config, from: Job, ws: seq<Write>, cur: Job, snap: Job, req: JobProtocol.Request)
    requires HoldsAfter(from, ws, cur) && req.Submit? && Commit(env, cfg, cur, snap, req).Ok?
    ensures HoldsAfter(from, ws + [Resubmitted(Submitter(Some(req.actor), Some(req.now)))],
                       Commit(env, cfg, cur, snap, req).value)
  {
    var x := Resubmitted(Submitter(Some(req.actor), Some(req.now)));
    WriteHolds(from, ws, x);
    OneMoreSubmitter(ws, x, SubmitterOf(from));
    SubmitWrites(env, cfg, cur, snap, req);
  }

  /** One more move, and what it writes. */
  lemma HoldsNext(env: Env, cfg: Config, from: Job, ws: seq<Write>, w: World, m: Move)
    requires HoldsAfter(from, ws, w.job)
    ensures HoldsAfter(from, ws + Written(env, cfg, w, m), Next(env, cfg, w, m).job)
  {
    if Written(env, cfg, w, m) == [] {
      assert ws + Written(env, cfg, w, m) == ws;
      QuietKeeps(env, cfg, w, m);
    } else {
      match w.pending[m.id]
      case PendingCapture(snap, c) => CaptureHolds(from, ws, w.job, snap, c);
      case PendingRequest(snap, req) => SubmitHolds(env, cfg, from, ws, w.job, snap, req);
    }
  }

  lemma SubmitWrites(env: Env, cfg: Config, cur: Job, snap: Job, req: JobProtocol.Request)
    requires req.Submit? && Commit(env, cfg, cur, snap, req).Ok?
    ensures
      var after := Commit(env, cfg, cur, snap, req).value;
      && SameCaptured(cur, after) && SameFrame(cur, after)
      && SubmitterOf(after) == Submitter(Some(req.actor), Some(req.now))
  {
  }

  lemma QuietKeeps(env: Env, cfg: Config, w: World, m: Move)
    requires Written(env, cfg, w, m) == []
    ensures
      var after := Next(env, cfg, w, m).job;
      SameCaptured(w.job, after) && SameFrame(w.job, after) && SubmitterOf(after) == SubmitterOf(w.job)
  {
    if m.End? && m.id in w.pending && w.pending[m.id].PendingRequest? {
      var p := w.pending[m.id];
      if Commit(env, cfg, w.job, p.snap, p.req).Ok? {
        CommitKeepsData(env, cfg, w.job, p.snap, p.req);
      }
    }
  }

  lemma CommitKeepsData(env: Env, cfg: Config, cur: Job, snap: Job, req: JobProtocol.Request)
    requires !req.Submit? && Commit(env, cfg, cur, snap, req).Ok?
    ensures
      var after := Commit(env, cfg, cur, snap, req).value;
      SameCaptured(cur, after) && SameFrame(cur, after) && SubmitterOf(after) == SubmitterOf(cur)
  {
  }

  /** A run leaves what its writes make of what was there. */
  lemma {:induction false} RunHolds(env: Env, cfg: Config, w: World, moves: seq<Move>)
    ensures HoldsAfter(w.job, Writes(env, cfg, w, moves), RunMoves(env, cfg, w, moves).job)
  {
    if moves != [] {
      var init := moves[..|moves| - 1];
      RunHolds(env, cfg, w, init);
      HoldsNext(env, cfg, w.job, Writes(env, cfg, w, init), RunMoves(env, cfg, w, init), moves[|moves| - 1]);
    }
  }

  // ---------------------------------------------------------------- writes to archived and voided jobs

  /** The move commits a part or an attachment: the writes that no status refuses. */
  ghost predicate LandsUnguarded(w: World, m: Move) {
    && m.End? && m.id in w.pending && w.pending[m.id].PendingCapture? && !IsResult(w.pending[m.id].capture)
    && CaptureCommit(w.job, w.pending[m.id].snap, w.pending[m.id].capture).Ok?
  }

  /** An archived or voided job is written by parts and attachments alone. */
  lemma ArchivedWrittenIff(env: Env, cfg: Config, w: World, m: Move)
    requires w.job.status in {Archived, Voided}
    ensures Written(env, cfg, w, m) != [] <==> LandsUnguarded(w, m)
  {
  }

  /** What is pending on an archived or voided job read it when it could still be written. */
  ghost predicate ReadWritable(w: World, c: JobProtocol.Capture) {
    exists id | id in w.pending ::
      w.pending[id].PendingCapture? && w.pending[id].capture == c && w.pending[id].snap.status in {Assigned, InProgress}
  }

  lemma {:induction false} ArchivedPending(env: Env, cfg: Config, w: World, moves: seq<Move>, id: nat)
    requires AllChecked(cfg, w) && w.job.status in {Archived, Voided}
    requires id in RunMoves(env, cfg, w, moves).pending && RunMoves(env, cfg, w, moves).pending[id].PendingCapture?
    ensures id in w.pending && w.pending[id] == RunMoves(env, cfg, w, moves).pending[id]
  {
    if moves != [] {
      var init := moves[..|moves| - 1];
      TerminalStatusesHold(env, cfg, w, init);
      ArchivedPending(env, cfg, w, init, id);
    }
  }

  /** What an archived or voided job still receives are parts and attachments that read it before. */
  lemma {:induction false} ArchivedWrites(env: Env, cfg: Config, w: World, moves: seq<Move>)
    requires AllChecked(cfg, w) && w.job.status in {Archived, Voided}
    ensures forall i | 0 <= i < |Writes(env, cfg, w, moves)| ::
      var x := Writes(env, cfg, w, moves)[i];
      x.Captured? && !IsResult(x.capture) && ReadWritable(w, x.capture)
  {
    if moves != [] {
      var init, m := moves[..|moves| - 1], moves[|moves| - 1];
      var before := RunMoves(env, cfg, w, init);
      TerminalStatusesHold(env, cfg, w, init);
      ArchivedWrites(env, cfg, w, init);
      ArchivedWrittenIff(env, cfg, before, m);
      if Written(env, cfg, before, m) != [] {
        RunChecked(env, cfg, w, init);
        assert Checked(cfg, before.pending[m.id]);
        ArchivedPending(env, cfg, w, init, m.id);
        assert ReadWritable(w, before.pending[m.id].capture);
      }
    }
  }

  lemma {:induction false} OnlyUnguarded(ws: seq<Write>)
    requires forall i | 0 <= i < |ws| :: ws[i].Captured? && !IsResult(ws[i].capture)
    ensures ItemWrites(ws) == [] && MeasurementWrites(ws) == []
    ensures forall s :: LastSubmitter(s, ws) == s
  {
    if ws != [] {
      OnlyUnguarded(ws[..|ws| - 1]);
    }
  }

  /** Results and submitter of an archived or voided job stay as they are, whatever is in flight. */
  lemma ArchivedResultsKept(env: Env, cfg: Config, w: World, moves: seq<Move>)
    requires AllChecked(cfg, w) && w.job.status in {Archived, Voided}
    ensures
      var job := RunMoves(env, cfg, w, moves).job;
      && job.status in {Archived, Voided}
      && job.itemResults == w.job.itemResults && job.measurementResults == w.job.measurementResults
      && SubmitterOf(job) == SubmitterOf(w.job) && SameFrame(w.job, job)
  {
    TerminalStatusesHold(env, cfg, w, moves);
    ArchivedWrites(env, cfg, w, moves);
    OnlyUnguarded(Writes(env, cfg, w, moves));
    RunHolds(env, cfg, w, moves);
  }

  /** A run can be cut anywhere. */
  lemma {:induction false} RunSplits(env: Env, cfg: Config, w: World, moves: seq<Move>, n: nat)
    requires n <= |moves|
    ensures RunMoves(env, cfg, After(env, cfg, w, moves, n), moves[n..]) == RunMoves(env, cfg, w, moves)
  {
    if n == |moves| {
      assert moves[..n] == moves;
    } else {
      var last := |moves| - 1;
      RunSplits(env, cfg, w, moves[..last], n);
      AfterPrefix(env, cfg, w, moves, last, n);
      assert moves[n..][..last - n] == moves[..last][n..];
    }
  }

  // ---------------------------------------------------------------- which request wrote the newest step

  /** The request begun by move `b` is in flight from there to move `e`. */
  ghost predicate InFlight(env: Env, cfg: Config, w: World, moves: seq<Move>, b: nat, e: nat) {
    && b < e <= |moves|
    && moves[b].Begin? && Precheck(cfg, After(env, cfg, w, moves, b).job, moves[b].req).None?
    && forall k: nat | b < k <= e :: IsPending(After(env, cfg, w, moves, k), After(env, cfg, w, moves, b).job, moves[b])
  }

  ghost predicate IsPending(w: World, snap: Job, begin: Move) {
    begin.Begin? && begin.id in w.pending && w.pending[begin.id] == PendingRequest(snap, begin.req)
  }

  /** The request begun by move `b` wrote, at move `e`, the newest step of the run's job. */
  ghost predicate WroteNewest(env: Env, cfg: Config, w: World, moves: seq<Move>, b: nat, e: nat) {
    && e < |moves| && InFlight(env, cfg, w, moves, b, e) && moves[e] == End(moves[b].id)
    && |After(env, cfg, w, moves, e + 1).job.steps| > |After(env, cfg, w, moves, e).job.steps|
    && |RunMoves(env, cfg, w, moves).job.steps| == |After(env, cfg, w, moves, e + 1).job.steps|
  }

  lemma AfterNext(env: Env, cfg: Config, w: World, moves: seq<Move>, n: nat)
    requires n < |moves|
    ensures After(env, cfg, w, moves, n + 1) == Next(env, cfg, After(env, cfg, w, moves, n), moves[n])
  {
    assert moves[..n + 1][..n] == moves[..n];
  }

  /** What is pending was begun, and has been in flight since. */
  lemma {:induction false} PendingBegun(env: Env, cfg: Config, w: World, moves: seq<Move>, id: nat, k: nat)
    returns (b: nat)
    requires w.pending == map[] && k <= |moves|
    requires id in After(env, cfg, w, moves, k).pending && After(env, cfg, w, moves, k).pending[id].PendingRequest?
    ensures InFlight(env, cfg, w, moves, b, k) && moves[b].id == id
  {
    assert k > 0;
    var before := After(env, cfg, w, moves, k - 1);
    var m := moves[k - 1];
    AfterNext(env, cfg, w, moves, k - 1);
    if m.Begin? && m.id == id && Precheck(cfg, before.job, m.req).None? {
      b := k - 1;
    } else {
      b := PendingBegun(env, cfg, w, moves, id, k - 1);
    }
  }

  lemma CommitGrows(env: Env, cfg: Config, cur: Job, snap: Job, req: JobProtocol.Request)
    requires Commit(env, cfg, cur, snap, req).Ok?
    ensures
      var steps := Commit(env, cfg, cur, snap, req).value.steps;
      cur.steps <= steps && |steps| <= |cur.steps| + 1
  {
    UpdateKeepsSteps(cfg, cur, snap, req, GuardedUpdate(cfg, cur, snap, req).value);
  }

  /** A move appends at most one step, and does so only by committing a signing request. */
  lemma StepsNext(env: Env, cfg: Config, w: World, m: Move)
    ensures
      var after := Next(env, cfg, w, m).job;
      && w.job.steps <= after.steps && |after.steps| <= |w.job.steps| + 1
      && (|after.steps| > |w.job.steps| ==>
            EndsRequest(w, m) && Commit(env, cfg, w.job, w.pending[m.id].snap, w.pending[m.id].req).Ok?)
  {
    if EndsRequest(w, m) {
      var p := w.pending[m.id];
      if Commit(env, cfg, w.job, p.snap, p.req).Ok? {
        CommitGrows(env, cfg, w.job, p.snap, p.req);
      }
    }
  }

  lemma {:induction false} StepsGrow(env: Env, cfg: Config, w: World, moves: seq<Move>, m: nat, n: nat)
    requires m <= n <= |moves|
    ensures After(env, cfg, w, moves, m).job.steps <= After(env, cfg, w, moves, n).job.steps
  {
    if m < n {
      StepsGrow(env, cfg, w, moves, m, n - 1);
      AfterNext(env, cfg, w, moves, n - 1);
      StepsNext(env, cfg, After(env, cfg, w, moves, n - 1), moves[n - 1]);
    }
  }

  /** What the signing transaction does to the row it finds. */
  lemma SignedCommit(env: Env, cfg: Config, cur: Job, snap: Job, req: JobProtocol.Request)
    returns (u: Update, d: Digest)
    requires Commit(env, cfg, cur, snap, req).Ok?
    requires |Commit(env, cfg, cur, snap, req).value.steps| > |cur.steps|
    ensures GuardedUpdate(cfg, cur, snap, req) == Ok(u) && u.Signed? && u.row.steps == cur.steps
    ensures env.contentHash(RecordOf(snap, u.status, u.submitter, cur.steps + [u.step])) == Some(d)
    ensures Commit(env, cfg, cur, snap, req).value == Append(env, u.row, u.step, d)
    ensures u.row.status == u.status
    ensures u.submitter == if req.Submit? then Submitter(Some(req.actor), Some(req.now)) else SubmitterOf(snap)
    ensures req.Submit? ==> SubmitterOf(u.row) == u.submitter
  {
    u := GuardedUpdate(cfg, cur, snap, req).value;
    UpdateKeepsSteps(cfg, cur, snap, req, u);
    d := env.contentHash(RecordOf(snap, u.status, u.submitter, cur.steps + [u.step])).value;
  }

  /** A move that appends no step keeps the status or leaves the frozen ones, and keeps the submitter. */
  lemma UnsignedNext(env: Env, cfg: Config, w: World, m: Move)
    requires AllChecked(cfg, w)
    requires |Next(env, cfg, w, m).job.steps| == |w.job.steps|
    ensures
      var after := Next(env, cfg, w, m).job;
      && (after.status == w.job.status || !Frozen(after.status))
      && SubmitterOf(after) == SubmitterOf(w.job)
  {
    if m.End? && m.id in w.pending && w.pending[m.id].PendingRequest? {
      var p := w.pending[m.id];
      if Commit(env, cfg, w.job, p.snap, p.req).Ok? {
        UnsignedCommit(env, cfg, w.job, p.snap, p.req);
      }
    }
  }

  lemma UnsignedCommit(env: Env, cfg: Config, cur: Job, snap: Job, req: JobProtocol.Request)
    requires Precheck(cfg, snap, req).None? && Commit(env, cfg, cur, snap, req).Ok?
    requires |Commit(env, cfg, cur, snap, req).value.steps| == |cur.steps|
    ensures
      var after := Commit(env, cfg, cur, snap, req).value;
      && (after.status == cur.status || !Frozen(after.status))
      && SubmitterOf(after) == SubmitterOf(cur)
  {
    var u := GuardedUpdate(cfg, cur, snap, req).value;
    UpdateKeepsSteps(cfg, cur, snap, req, u);
  }

  /** After the newest step is written, a job that is frozen in the end keeps status, steps and submitter. */
  lemma {:induction false} QuietSince(env: Env, cfg: Config, w: World, moves: seq<Move>, n: nat, k: nat)
    requires AllChecked(cfg, w) && n <= k <= |moves|
    requires |After(env, cfg, w, moves, n).job.steps| == |After(env, cfg, w, moves, k).job.steps|
    ensures
      var first, last := After(env, cfg, w, moves, n).job, After(env, cfg, w, moves, k).job;
      && last.steps == first.steps
      && (last.status == first.status || !Frozen(last.status))
      && SubmitterOf(last) == SubmitterOf(first)
  {
    if n < k {
      StepsGrow(env, cfg, w, moves, n, k - 1);
      AfterNext(env, cfg, w, moves, k - 1);
      StepsNext(env, cfg, After(env, cfg, w, moves, k - 1), moves[k - 1]);
      QuietSince(env, cfg, w, moves, n, k - 1);
      RunChecked(env, cfg, w, moves[..k - 1]);
      UnsignedNext(env, cfg, After(env, cfg, w, moves, k - 1), moves[k - 1]);
      StepsGrow(env, cfg, w, moves, n, k);
    }
  }

  /** What the newest writer signed, and the row as its commit left it. */
  lemma NewestCommit(env: Env, cfg: Config, w: World, moves: seq<Move>, b: nat, e: nat)
    returns (u: Update, d: Digest)
    requires WroteNewest(env, cfg, w, moves, b, e)
    ensures u.Signed? && u.row.steps == After(env, cfg, w, moves, e).job.steps && u.row.status == u.status
    ensures After(env, cfg, w, moves, e + 1).job == Append(env, u.row, u.step, d)
    ensures
      var snap, req := After(env, cfg, w, moves, b).job, moves[b].req;
      && env.contentHash(RecordOf(snap, u.status, u.submitter, u.row.steps + [u.step])) == Some(d)
      && (req.Submit? ==> SubmitterOf(u.row) == u.submitter) && (!req.Submit? ==> u.submitter == SubmitterOf(snap))
  {
    var snap, req := After(env, cfg, w, moves, b).job, moves[b].req;
    var cur := After(env, cfg, w, moves, e);
    assert IsPending(cur, snap, moves[b]);
    AfterNext(env, cfg, w, moves, e);
    StepsNext(env, cfg, cur, moves[e]);
    u, d := SignedCommit(env, cfg, cur.job, snap, req);
  }

  /** The signed record and the row in the end, as the newest writer left them. */
  lemma NewestRecord(env: Env, cfg: Config, w: World, moves: seq<Move>, b: nat, e: nat)
    returns (u: Update, d: Digest)
    requires AllChecked(cfg, w) && WroteNewest(env, cfg, w, moves, b, e)
    requires Frozen(RunMoves(env, cfg, w, moves).job.status)
    ensures u.Signed?
    ensures
      var snap, req := After(env, cfg, w, moves, b).job, moves[b].req;
      var job := RunMoves(env, cfg, w, moves).job;
      var steps := After(env, cfg, w, moves, e).job.steps;
      && env.contentHash(RecordOf(snap, u.status, u.submitter, steps + [u.step])) == Some(d)
      && job.steps == steps + [u.step.(contentHash := d, signature := env.sign(d))]
      && job.status == u.status
      && u.submitter == (if req.Submit? then SubmitterOf(job) else SubmitterOf(snap))
  {
    u, d := NewestCommit(env, cfg, w, moves, b, e);
    assert moves[..|moves|] == moves;
    QuietSince(env, cfg, w, moves, e + 1, |moves|);
  }

  lemma {:induction false} NewestWritten(env: Env, cfg: Config, w: World, moves: seq<Move>, n: nat)
    returns (e: nat)
    requires w.job.steps == [] && n <= |moves| && After(env, cfg, w, moves, n).job.steps != []
    ensures e < n && |After(env, cfg, w, moves, e + 1).job.steps| > |After(env, cfg, w, moves, e).job.steps|
    ensures |After(env, cfg, w, moves, n).job.steps| == |After(env, cfg, w, moves, e + 1).job.steps|
  {
    AfterNext(env, cfg, w, moves, n - 1);
    StepsNext(env, cfg, After(env, cfg, w, moves, n - 1), moves[n - 1]);
    if |After(env, cfg, w, moves, n).job.steps| > |After(env, cfg, w, moves, n - 1).job.steps| {
      e := n - 1;
    } else {
      e := NewestWritten(env, cfg, w, moves, n - 1);
    }
  }

  /** In every run of a fresh job that ends submitted, archived or voided, some request wrote the newest step. */
  lemma NewestHasWriter(env: Env, cfg: Config, w: World, moves: seq<Move>) returns (b: nat, e: nat)
    requires IsFresh(w) && Frozen(RunMoves(env, cfg, w, moves).job.status)
    ensures WroteNewest(env, cfg, w, moves, b, e)
  {
    assert moves[..|moves|] == moves && moves[..0] == [];
    if RunMoves(env, cfg, w, moves).job.steps == [] {
      QuietSince(env, cfg, w, moves, 0, |moves|);
    }
    e := NewestWritten(env, cfg, w, moves, |moves|);
    AfterNext(env, cfg, w, moves, e);
    StepsNext(env, cfg, After(env, cfg, w, moves, e), moves[e]);
    b := PendingBegun(env, cfg, w, moves, moves[e].id, e);
  }
}

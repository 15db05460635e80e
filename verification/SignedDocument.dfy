/**
 What the newest signature of a job says: the signed hash is that of a UTF-8 text, and a JSON reader of that
 text finds the columns of the job, each under its name.
 */
module SignedDocument {
  import opened Texts
  import opened CanonicalSerialiser
  import opened JsonText
  import opened CanonicalBytes
  import opened CanonicalJobRecord
  import opened RecordReading
  import opened JobProtocol
  import opened JobRuns
  import opened RecordIntegrity

  ghost predicate IsStatusName(t: Text, s: JobStatus) {
    match s
    case Scheduled => IsNamed(t, "SCHEDULED")
    case Assigned => IsNamed(t, "ASSIGNED")
    case InProgress => IsNamed(t, "IN_PROGRESS")
    case Submitted => IsNamed(t, "SUBMITTED")
    case Verified => IsNamed(t, "VERIFIED")
    case Archived => IsNamed(t, "ARCHIVED")
    case Voided => IsNamed(t, "VOIDED")
  }

  ghost predicate IsActionName(t: Text, a: StepAction) {
    match a
    case StepSubmitted => IsNamed(t, "submitted")
    case StepVerified => IsNamed(t, "verified")
    case StepReturned => IsNamed(t, "returned")
    case StepRecalled => IsNamed(t, "recalled")
    case StepVoided => IsNamed(t, "voidedAction")
  }

  ghost predicate IsBound(b: ApprovalStep, s: Step) {
    && b.id == s.id && b.stageOrdinal == s.stageOrdinal && IsActionName(b.action, s.action)
    && b.actorId == s.actorId && b.onBehalfOfId == s.onBehalfOfId && b.reason == s.reason && b.actedAt == s.actedAt
  }

  /** The columns are those of the job, its parts those not removed. */
  ghost predicate HoldsJob(input: RecordInput, job: Job) {
    && input.job.id == job.id && input.job.jobNumber == job.jobNumber && input.job.assetId == job.assetId
    && input.job.templateRevisionId == job.revision.id && input.job.frequency == job.frequency
    && IsStatusName(input.job.status, job.status) && input.revision == job.revision
    && input.submitter.userId == job.submittedBy && input.submitter.submittedAt == job.submittedAt
    && input.itemResults == job.itemResults && input.measurementResults == job.measurementResults
    && input.attachments == job.attachments && AreActive(input.partsUsed, job.partRows)
    && |input.approvalSteps| == |job.steps|
    && forall i | 0 <= i < |job.steps| :: IsBound(input.approvalSteps[i], job.steps[i])
  }

  /** The parts of the active rows, in the order of the rows. */
  ghost predicate AreActive(parts: seq<PartUsed>, rows: seq<PartRow>) {
    if rows == [] then parts == []
    else if rows[|rows| - 1].active then
      parts != [] && parts[|parts| - 1] == rows[|rows| - 1].part && AreActive(parts[..|parts| - 1], rows[..|rows| - 1])
    else AreActive(parts, rows[..|rows| - 1])
  }

  lemma {:induction false} ShownLast<T>(rows: seq<T>, hidden: T -> bool)
    requires rows != []
    ensures
      var last := rows[|rows| - 1];
      Shown(rows, hidden) == Shown(rows[..|rows| - 1], hidden) + if hidden(last) then [] else [last]
  {
    if |rows| > 1 {
      ShownLast(rows[1..], hidden);
      assert rows[1..][..|rows| - 2] == rows[..|rows| - 1][1..];
    }
  }

  lemma MapLast<A, B>(f: A -> B, xs: seq<A>, x: A)
    ensures Map(f, xs + [x]) == Map(f, xs) + [f(x)]
  {
    var ys := Map(f, xs + [x]);
    forall i | 0 <= i < |ys| ensures ys[i] == (Map(f, xs) + [f(x)])[i] {
    }
  }

  lemma {:induction false} ActivePartsAre(rows: seq<PartRow>)
    ensures AreActive(ActiveParts(rows), rows)
  {
    if rows != [] {
      var init, last := rows[..|rows| - 1], rows[|rows| - 1];
      ActivePartsAre(init);
      ShownLast(rows, PartHidden());
      if last.active {
        MapLast(PartOf(), Shown(init, PartHidden()), last);
        assert ActiveParts(rows) == ActiveParts(init) + [last.part];
      } else {
        assert Shown(rows, PartHidden()) == Shown(init, PartHidden());
      }
    }
  }

  lemma StatusNamed(s: JobStatus)
    ensures IsStatusName(StatusText(s), s)
  {
  }

  lemma ActionNamed(a: StepAction)
    ensures IsActionName(ActionText(a), a)
  {
  }

  lemma CurrentRecordHolds(job: Job)
    ensures HoldsJob(CurrentRecord(job), job)
  {
    var input := CurrentRecord(job);
    StatusNamed(job.status);
    ActivePartsAre(job.partRows);
    forall i | 0 <= i < |job.steps| ensures IsBound(input.approvalSteps[i], job.steps[i]) {
      ActionNamed(job.steps[i].action);
    }
  }

  /** The digest is that of a UTF-8 text, and a reader of that text finds the columns of the job. */
  ghost predicate DigestSaysJob(
    nfc: Normaliser, iso: DateFormat, sha256: seq<Byte> -> Digest, d: Digest, job: Job)
  {
    exists bytes: seq<Byte> :: sha256(bytes) == d && BytesSayJob(nfc, iso, bytes, job)
  }

  ghost predicate BytesSayJob(nfc: Normaliser, iso: DateFormat, bytes: seq<Byte>, job: Job) {
    && Parse(DecodeUtf8(bytes)).Some?
    && exists input: RecordInput ::
         HoldsJob(input, job) && RecordSays(nfc, iso, Parse(DecodeUtf8(bytes)).value, input)
  }

  lemma HashSaysJob(nfc: Normaliser, iso: DateFormat, sha256: seq<Byte> -> Digest, job: Job)
    requires ContentHash(nfc, iso, sha256)(CurrentRecord(job)).Some?
    ensures DigestSaysJob(nfc, iso, sha256, ContentHash(nfc, iso, sha256)(CurrentRecord(job)).value, job)
  {
    var input := CurrentRecord(job);
    if !AllReadable(input) {
      UnreadableHasNoHash(nfc, iso, sha256, input);
    } else {
      var v := Build(iso, input).value;
      TextSaysRecord(nfc, iso, input);
      CanonicalTextPaired(nfc, v);
      DecodeEncoded(Canonicalise(nfc, v).value);
      CurrentRecordHolds(job);
      var bytes := CanonicalSerialise(nfc, v).value;
      assert BytesSayJob(nfc, iso, bytes, job);
      HashOfBytes(nfc, iso, sha256, input, v, bytes);
    }
  }

  /** The newest signature verifies, and what it signs reads as the columns of the job. */
  ghost predicate NewestSaysJob(nfc: Normaliser, iso: DateFormat, sha256: seq<Byte> -> Digest, env: Env, job: Job) {
    job.steps != [] &&
    var newest := job.steps[|job.steps| - 1];
    env.verify(newest.contentHash, newest.signature) && DigestSaysJob(nfc, iso, sha256, newest.contentHash, job)
  }

  lemma SignedSaysJob(nfc: Normaliser, iso: DateFormat, sha256: seq<Byte> -> Digest, env: Env, job: Job)
    requires env.contentHash == ContentHash(nfc, iso, sha256) && NewestSigned(env, job) && AllValid(env, job.steps)
    ensures NewestSaysJob(nfc, iso, sha256, env, job)
  {
    assert StepValid(env, job.steps[|job.steps| - 1]);
    HashSaysJob(nfc, iso, sha256, job);
  }

  /** So it is in every reachable submitted, archived or voided job. */
  lemma NewestSignatureSaysJob(
    nfc: Normaliser, iso: DateFormat, sha256: seq<Byte> -> Digest, env: Env, cfg: Config, job: Job, events: seq<Event>)
    requires env.contentHash == ContentHash(nfc, iso, sha256)
    requires IsNew(job) && ClockIncreases(events) && cfg.stageCount >= 1
    requires Run(env, cfg, job, events).status in {Submitted, Archived, Voided}
    ensures NewestSaysJob(nfc, iso, sha256, env, Run(env, cfg, job, events))
  {
    NewestSignatureIsCurrent(env, cfg, job, events);
    RunValid(env, cfg, job, events);
    SignedSaysJob(nfc, iso, sha256, env, Run(env, cfg, job, events));
  }
}

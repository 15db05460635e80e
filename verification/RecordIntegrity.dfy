/**
 The integrity check of a record: every step's signature against its own stored hash, and the newest
 hash against the record rebuilt from current data.
 */
module RecordIntegrity {
  import opened Wrappers
  import opened Texts
  import opened CanonicalSerialiser
  import opened CanonicalEquality
  import opened CanonicalBytes
  import opened CanonicalJobRecord
  import opened JobRecordEquality
  import opened RecordUpToNfc
  import opened JobProtocol
  import opened JobRuns

  // ---------------------------------------------------------------- the check

  datatype Mismatch = SignatureInvalid(stepId: Text) | HashDiffers(stepId: Text)

  datatype StepReport = StepReport(stepId: Text, hashMatches: bool, signatureValid: bool)

  datatype Report = Report(intact: bool, voided: bool, signatures: seq<StepReport>, mismatches: seq<Mismatch>)

  predicate StepValid(env: Env, s: Step) {
    env.verify(s.contentHash, s.signature)
  }

  ghost predicate AllValid(env: Env, steps: seq<Step>) {
    forall i | 0 <= i < |steps| :: StepValid(env, steps[i])
  }

  /** Every signature verifies, and the newest one is of the record as it stands. */
  ghost predicate Intact(env: Env, job: Job) {
    AllValid(env, job.steps) && (job.steps != [] ==> NewestSigned(env, job))
  }

  /** What is reported of step `i` when the newest hash is, or is not, that of the rebuilt record. */
  function ReportOf(env: Env, steps: seq<Step>, newestSigned: bool, i: nat): StepReport
    requires i < |steps|
  {
    StepReport(steps[i].id, i < |steps| - 1 || newestSigned, StepValid(env, steps[i]))
  }

  /** The newest step's hash is that of the record rebuilt from the row. */
  predicate HashIsNewest(rebuilt: Option<Digest>, steps: seq<Step>) {
    steps != [] && rebuilt == Some(steps[|steps| - 1].contentHash)
  }

  /** The steps whose signature does not verify, in their order. */
  function InvalidSignatures(env: Env, steps: seq<Step>): seq<Mismatch> {
    if steps == [] then []
    else
      var last := steps[|steps| - 1];
      InvalidSignatures(env, steps[..|steps| - 1])
      + if env.verify(last.contentHash, last.signature) then [] else [SignatureInvalid(last.id)]
  }

  /** These, and the newest step where its hash is not that of the rebuilt record. */
  function MismatchesOf(env: Env, steps: seq<Step>, newestSigned: bool): seq<Mismatch> {
    InvalidSignatures(env, steps)
    + if steps == [] || newestSigned then [] else [HashDiffers(steps[|steps| - 1].id)]
  }

  lemma {:induction false} NoneInvalid(env: Env, steps: seq<Step>)
    ensures InvalidSignatures(env, steps) == [] <==> AllValid(env, steps)
  {
    if steps != [] {
      var last := |steps| - 1;
      NoneInvalid(env, steps[..last]);
      assert forall i | 0 <= i < last :: steps[..last][i] == steps[i];
      assert AllValid(env, steps) <==> AllValid(env, steps[..last]) && StepValid(env, steps[last]);
    }
  }

  lemma NextInvalid(env: Env, steps: seq<Step>, i: nat)
    requires i < |steps|
    ensures InvalidSignatures(env, steps[..i + 1]) ==
      InvalidSignatures(env, steps[..i]) + if StepValid(env, steps[i]) then [] else [SignatureInvalid(steps[i].id)]
  {
    assert steps[..i + 1][..i] == steps[..i];
  }

  /** The loop of `checkIntegrity` over the steps; the record is rebuilt at the newest one. */
  method CheckSteps(env: Env, steps: seq<Step>, record: RecordInput)
    returns (r: Option<(seq<StepReport>, seq<Mismatch>)>)
    ensures r.None? <==> steps != [] && env.contentHash(record).None?
    ensures r.Some? ==>
      var newest := HashIsNewest(env.contentHash(record), steps);
      && (r.value.1 == [] <==> AllValid(env, steps) && (steps != [] ==> newest))
      && r.value.1 == MismatchesOf(env, steps, newest)
      && |r.value.0| == |steps|
      && forall i | 0 <= i < |steps| :: r.value.0[i] == ReportOf(env, steps, newest, i)
  {
    var mismatches: seq<Mismatch> := [];
    var signatures: seq<StepReport> := [];
    var n := |steps|;
    ghost var newest := HashIsNewest(env.contentHash(record), steps);
    for i := 0 to n
      invariant |signatures| == i
      invariant i == n && n > 0 ==> env.contentHash(record).Some?
      invariant mismatches == InvalidSignatures(env, steps[..i]) + if i < n || n == 0 || newest then []
                                                                   else [HashDiffers(steps[n - 1].id)]
      invariant forall k | 0 <= k < i :: signatures[k] == ReportOf(env, steps, newest, k)
    {
      var step := steps[i];
      NextInvalid(env, steps, i);
      var signatureValid := env.verify(step.contentHash, step.signature);
      if !signatureValid {
        mismatches := mismatches + [SignatureInvalid(step.id)];
      }
      var hashMatches := true;
      if i == n - 1 {
        var recomputed := env.contentHash(record);
        if recomputed.None? {
          return None;
        }
        hashMatches := recomputed.value == step.contentHash;
        if !hashMatches {
          mismatches := mismatches + [HashDiffers(step.id)];
        }
      }
      signatures := signatures + [StepReport(step.id, hashMatches, signatureValid)];
    }
    assert steps[..n] == steps;
    NoneInvalid(env, steps);
    r := Some((signatures, mismatches));
  }

  /** `checkIntegrity`; `None` where rebuilding the record throws. */
  method CheckIntegrity(env: Env, job: Job) returns (r: Option<Report>)
    ensures r.None? <==> job.steps != [] && env.contentHash(CurrentRecord(job)).None?
    ensures r.Some? ==> && (r.value.intact <==> Intact(env, job))
                        && (r.value.intact <==> r.value.mismatches == [])
                        && (r.value.voided <==> job.status == Voided)
                        && r.value.mismatches == MismatchesOf(env, job.steps, NewestSigned(env, job))
                        && |r.value.signatures| == |job.steps|
                        && forall i | 0 <= i < |job.steps| ::
                             && r.value.signatures[i].stepId == job.steps[i].id
                             && (r.value.signatures[i].hashMatches <==> i < |job.steps| - 1 || NewestSigned(env, job))
                             && (r.value.signatures[i].signatureValid <==>
                                   env.verify(job.steps[i].contentHash, job.steps[i].signature))
  {
    var outcome := CheckSteps(env, job.steps, CurrentRecord(job));
    if outcome.None? {
      return None;
    }
    var (signatures, mismatches) := outcome.value;
    r := Some(Report(mismatches == [], job.status == Voided, signatures, mismatches));
  }

  // ---------------------------------------------------------------- every reachable record is intact

  lemma CommitValid(env: Env, cfg: Config, cur: Job, snap: Job, req: JobProtocol.Request)
    requires AllValid(env, cur.steps) && Commit(env, cfg, cur, snap, req).Ok?
    ensures AllValid(env, Commit(env, cfg, cur, snap, req).value.steps)
  {
    var u := GuardedUpdate(cfg, cur, snap, req).value;
    UpdateKeepsSteps(cfg, cur, snap, req, u);
    if u.Signed? {
      var d := env.contentHash(RecordOf(snap, u.status, u.submitter, u.row.steps + [u.step])).value;
      assert IsSigner(env);
      assert env.verify(d, env.sign(d));
    }
  }

  lemma UpdateKeepsSteps(cfg: Config, cur: Job, snap: Job, req: JobProtocol.Request, u: Update)
    requires GuardedUpdate(cfg, cur, snap, req) == Ok(u)
    ensures u.row.steps == cur.steps
  {
  }

  lemma {:induction false} RunValid(env: Env, cfg: Config, job: Job, events: seq<Event>)
    requires AllValid(env, job.steps)
    ensures AllValid(env, Run(env, cfg, job, events).steps)
  {
    if events != [] {
      var before := Run(env, cfg, job, events[..|events| - 1]);
      RunValid(env, cfg, job, events[..|events| - 1]);
      match events[|events| - 1]
      case Request(r) =>
        if Precheck(cfg, before, r).None? && Commit(env, cfg, before, before, r).Ok? {
          CommitValid(env, cfg, before, before, r);
        }
      case Capture(c) =>
        if CaptureResult(cfg, before, c).Ok? {
          CaptureEdits(cfg, before, c);
        }
    }
  }

  /** After any run, the check of a submitted, archived or voided job finds it intact. */
  lemma ReachableRecordIsIntact(env: Env, cfg: Config, job: Job, events: seq<Event>)
    requires IsNew(job) && ClockIncreases(events) && cfg.stageCount >= 1
    requires Frozen(Run(env, cfg, job, events).status)
    ensures Intact(env, Run(env, cfg, job, events))
  {
    RunValid(env, cfg, job, events);
    NewestSignatureIsCurrent(env, cfg, job, events);
  }

  // ---------------------------------------------------------------- the hash the service computes

  /** `computeContentHash(buildCanonicalJobRecord(input))`; `None` where building throws. */
  function ContentHash(nfc: Normaliser, iso: DateFormat, sha256: seq<Byte> -> Digest): RecordInput -> Option<Digest> {
    (input: RecordInput) =>
      match Build(iso, input)
      case Err(_) => None
      case Ok(record) =>
        match CanonicalSerialise(nfc, record)
        case Err(_) => None
        case Ok(bytes) => Some(sha256(bytes))
  }

  lemma HashOfBytes(
    nfc: Normaliser, iso: DateFormat, sha256: seq<Byte> -> Digest, input: RecordInput, v: Value, bytes: seq<Byte>)
    requires Build(iso, input) == Ok(v) && CanonicalSerialise(nfc, v) == Ok(bytes)
    ensures ContentHash(nfc, iso, sha256)(input) == Some(sha256(bytes))
  {
  }

  /** Content hashes agree exactly on the same record. */
  lemma ContentHashIff(nfc: Normaliser, iso: DateFormat, sha256: seq<Byte> -> Digest, a: RecordInput, b: RecordInput)
    requires CollisionFree(sha256) && AllReadable(a) && AllReadable(b)
    ensures var hash := ContentHash(nfc, iso, sha256);
            && hash(a).Some? && hash(b).Some?
            && (hash(a) == hash(b) <==> SameRecord(nfc, Build(iso, a).value, Build(iso, b).value))
  {
    var v, w := Build(iso, a).value, Build(iso, b).value;
    BuildHashable(nfc, iso, a);
    BuildHashable(nfc, iso, b);
    SameBytesIffSameRecord(nfc, v, w);
    var s, t := CanonicalSerialise(nfc, v).value, CanonicalSerialise(nfc, w).value;
    assert sha256(s) == sha256(t) ==> s == t;
  }

  /**
   Content hashes agree exactly when the inputs agree field by field: rows as id-keyed sets, decimals by
   value, texts up to NFC.
   */
  lemma ContentHashIffSameInput(
    nfc: Normaliser, iso: DateFormat, sha256: seq<Byte> -> Digest, a: RecordInput, b: RecordInput)
    requires CollisionFree(sha256) && AllReadable(a) && AllReadable(b)
    requires UniqueIds(a) && UniqueIds(b) && AsciiIds(a) && AsciiIds(b)
    ensures var hash := ContentHash(nfc, iso, sha256);
            hash(a) == hash(b) <==> SameInput(NormalInput(nfc, a), NormalInput(nfc, b))
  {
    ContentHashIff(nfc, iso, sha256, a, b);
    SameRecordIffSameInput(nfc, iso, a, b);
  }

  // ---------------------------------------------------------------- altered rows

  /** A row that kept the newest hash passes exactly when its signatures verify and it says what was signed. */
  lemma AlteredRowPassesIff(
    nfc: Normaliser, iso: DateFormat, sha256: seq<Byte> -> Digest, env: Env, signed: Job, altered: Job)
    requires CollisionFree(sha256) && env.contentHash == ContentHash(nfc, iso, sha256)
    requires NewestSigned(env, signed) && altered.steps != []
    requires altered.steps[|altered.steps| - 1].contentHash == signed.steps[|signed.steps| - 1].contentHash
    requires UniqueIds(CurrentRecord(signed)) && AsciiIds(CurrentRecord(signed))
    requires UniqueIds(CurrentRecord(altered)) && AsciiIds(CurrentRecord(altered))
    ensures Intact(env, altered) <==>
              && AllValid(env, altered.steps) && AllReadable(CurrentRecord(altered))
              && SameInput(NormalInput(nfc, CurrentRecord(signed)), NormalInput(nfc, CurrentRecord(altered)))
  {
    var a, b := CurrentRecord(signed), CurrentRecord(altered);
    if !AllReadable(a) {
      UnreadableHasNoHash(nfc, iso, sha256, a);
    }
    if !AllReadable(b) {
      UnreadableHasNoHash(nfc, iso, sha256, b);
    } else {
      ContentHashIffSameInput(nfc, iso, sha256, a, b);
    }
  }

  /**
   Tamper evidence: a row put in place of a reachable submitted, archived or voided job, with the newest
   stored hash kept, passes the check exactly when it still says what was signed.
   */
  lemma TamperingShows(
    nfc: Normaliser, iso: DateFormat, sha256: seq<Byte> -> Digest, env: Env, cfg: Config, job: Job,
    events: seq<Event>, altered: Job)
    requires CollisionFree(sha256) && env.contentHash == ContentHash(nfc, iso, sha256)
    requires IsNew(job) && ClockIncreases(events) && cfg.stageCount >= 1
    requires Frozen(Run(env, cfg, job, events).status)
    requires Run(env, cfg, job, events).steps != [] && altered.steps != []
    requires var steps := Run(env, cfg, job, events).steps;
             altered.steps[|altered.steps| - 1].contentHash == steps[|steps| - 1].contentHash
    requires var signed := CurrentRecord(Run(env, cfg, job, events)); UniqueIds(signed) && AsciiIds(signed)
    requires UniqueIds(CurrentRecord(altered)) && AsciiIds(CurrentRecord(altered))
    ensures
      var signed := CurrentRecord(Run(env, cfg, job, events));
      Intact(env, altered) <==>
        && AllValid(env, altered.steps) && AllReadable(CurrentRecord(altered))
        && SameInput(NormalInput(nfc, signed), NormalInput(nfc, CurrentRecord(altered)))
  {
    NewestSignatureIsCurrent(env, cfg, job, events);
    AlteredRowPassesIff(nfc, iso, sha256, env, Run(env, cfg, job, events), altered);
  }

  lemma UnreadableHasNoHash(nfc: Normaliser, iso: DateFormat, sha256: seq<Byte> -> Digest, input: RecordInput)
    requires !AllReadable(input)
    ensures ContentHash(nfc, iso, sha256)(input).None?
  {
    assert Build(iso, input) == Err(MalformedDecimal);
  }
}

# BamForm verification model

BamForm keeps maintenance records whose signed contents must stay verifiable. This project models the parts
of it that this promise rests on, and proves what they guarantee:

- **Canonical records.** The serialiser behind every content hash (`CanonicalSerialiser`), a parser that undoes
  it (`JsonText`), the two decimal normalisers (`Decimals`, `NumberTexts`), the UTF-8 bytes (`CanonicalBytes`),
  and the record built from a job's rows (`CanonicalJobRecord`, `JobRecordEquality`, `RecordUpToNfc`). Equal
  texts, equal bytes and equal hashes mean equal records, and equal records mean equal rows, in both directions.
  What a reader finds in a text: each property's value, names by code unit (`CanonicalReading`), strings as short
  as they can be (`ShortestStrings`), a job's columns under their names (`RecordReading`, `SignedDocument`).
- **Approval protocol.** One job row with its append-only approval steps (`JobProtocol`), once with each request
  atomic (`JobRuns`) and once with every request and every capture of a result, a part or an attachment split into
  a read and a transaction with others in between (`SplitRuns`): which interleavings keep the lifecycle lawful,
  which leave the newest signature current (`RowWrites`, `RevisedRows`, `InterleavedSignatures`,
  `StaleSignatures`), which change an archived record (`LateCaptures`), which pass the integrity check
  (`InterleavedIntegrity`) and which keep the signers apart (`CycleCheck`, `InterleavedSigners`). Runs that end as
  described are put together in `LawfulRuns`. When each request is let through and all it writes
  (`RequestOutcomes`), and the completeness gate of submission (`MandatoryItems`). The row as the services update
  it (`JobStore`), the integrity check (`RecordIntegrity`) and idempotency keys (`Idempotency`).
- **Audit chain.** The hashed text of an event (`AuditContent`), the page walk and the paging loop
  (`AuditChain`), what they detect (`AuditTampering`), and the columns read off a hashed text (`AuditReading`).
- **Scheduling.** Clamped calendar months (`Calendar`) against the civil calendar in closed form
  (`CivilCalendar`, `CivilSchedule`), the planner's projection and date texts
  (`PlannerProjection`), the completion cascade and its reverse (`CompletionCascade`), what a schedule rule goes
  through (`ScheduleHistory`), whole plants of jobs and rules over interleaved runs (`CompletionRuns`,
  `PlantSchedule`, `VoidedCompletions`, over `Traces`), and frequency scopes (`FrequencyCascade`).
- **Gates in memory.** The render semaphore (`RenderSemaphore`) and the web client's reload gate (`UpdateGate`).
- **Codec and paging.** The CSV manifest and a reader for section 2 of RFC 4180 (`ExportCsv`), cursor walks
  (`Pagination`) and the verification queue (`Queue`).

Text is a sequence of UTF-16 code units. The clock, session storage, the outcome of access checks and the ids a
request draws are inputs. Unicode NFC is any idempotent function that leaves ASCII alone, `Number.toString` is
any text of the shape JavaScript writes, `Date.toISOString` is any injective ASCII rendering, hashing is
collision-free, and a signature verifies against what was signed. A database transaction is one step, and a
table is a map or a sequence.

Where the code and its documentation disagree, the model follows the code:

- The queue promises every job awaiting the caller; at most 500 candidates per identity are fetched
  (`api/src/queue/queue.repository.ts:20`), so the proved statement carries that bound and `Queue.CapHidesAJob`
  exhibits a missed job.
- Canonical text is documented as independent of key order. Where two keys of one object become equal under NFC
  it depends on insertion order: `PropertyOrder.InsertionOrderIrrelevantIff` says exactly when for one object,
  `NestedOrder.OrderHiddenIff` for every depth, and `PropertyOrder.KelvinOrdersDiffer` shows an object with two
  texts.
- A signature is documented to be of the record it is stored with. A request signs the rows it read before its
  transaction, and submission re-checks only the status, so a result recorded in between leaves a submitted
  record that fails its own integrity check (`StaleSignatures.StaleSubmissionSigned`).
  `StaleSignatures.NewestSignatureCurrentIff` says which writes do so.
- Records are documented to be immutable once approved (`docs/DATABASE_DESIGN.md:62`). Parts and attachments check
  the status they read and are then written without a guard, and no trigger covers their tables, so one that read
  the job while it was open still lands in an archived record and changes what was signed
  (`LateCaptures.LateAttachmentShows`).
  `LateCaptures.ArchivedRowsKeptIff` says exactly when the signed rows stay the same.
- The integrity check takes the step with the latest time for the newest. Times are those at which requests
  started, so a void that started before a verification and commits after it leaves an untouched record that
  fails its check (`InterleavedIntegrity.LateVoidFailsCheck`); `InterleavedIntegrity.IntegrityPassesIff` says
  exactly when the hash check passes.
- The lifecycle table allows SUBMITTED to become IN_PROGRESS only by return or recall. Result capture writes the
  status from an earlier read, without a guard, so a capture that read ASSIGNED can reopen a submitted job
  (`SplitRuns.LateCaptureReopens`); nothing else leaves the table (`SplitRuns.EveryChangeIsLegalIff`).
- Two verifications are documented to be by two people. The check, in the service and in the database alike,
  compares the times at which requests started, so a verification that started before a return and commits after
  the resubmission is overlooked, and the same person can sign the next stage
  (`InterleavedSigners.OnePersonSignsTwice`); `InterleavedSigners.SignersDifferIff` says exactly when. It also errs
  the other way: someone whose verification a return superseded is refused when that return started before it
  (`InterleavedSigners.SupersededSignatureRefuses`). `InterleavedSigners.CheckErrsIff` gives both conditions.
- Voiding an archived job is documented to leave the schedule as if that completion had never happened
  (`api/src/scheduling/void-schedule-recompute.service.ts:7-21`). Where no other completion remains the rule is
  cleared and falls due when the voided job did, whatever it stood at before
  (`VoidedCompletions.VoidClearsRule`), and of two jobs that are voided the last one's due date stays
  (`VoidedCompletions.LastVoidDecides`). `PlantSchedule.AsIfNeverCompletedIff` says exactly when the promise holds.
- A rule is documented to fall due an interval after the last completion (`docs/ADR.md:253-265`). The recompute takes
  the newest one, but the cascade the one that commits last, so two final verifications that commit out of order
  leave the rule at the earlier one; `PlantSchedule.RuleStandsByArchivedIff` says when, and
  `PlantSchedule.CompletedOnNeverBackIff` when a completion day moves back.
- The audit chain is documented to catch any mutated field. `sequence` and `created_at` are not hashed, and the
  `|` between the hashed columns is not escaped, while the request id is taken from a header
  (`api/src/common/request-meta.ts`): `AuditTampering.SeparatorRewriteUnseen` rewrites a row of an intact chain
  unseen, and `AuditTampering.BarFreeRewriteIntactIff` says what is seen while no column holds a `|`.
- The projection ceiling is described as a bound on the visits a rule contributes. It counts steps from the
  anchor, so a window far past the anchor is drawn empty (`PlannerProjection.CeilingIff`), and a visit that 256
  others precede is not drawn even alone (`PlannerProjection.LoneVisitDrawnIff`).

## Model

| member | source | states |
|---|---|---|
| Decimals.CanonicalDecimalAcceptsIff | api/src/crypto/canonical-serialiser.ts:117-136 | the constructor accepts a text exactly when it is an optional minus sign, digits, and possibly a point and more digits |
| Decimals.CanonicalDecimalValue | api/src/crypto/canonical-serialiser.ts:117-136 | the text of an accepted string is in normal form and denotes the same rational number |
| Decimals.CanonicalDecimalSameTextIff | api/src/crypto/canonical-serialiser.ts:117-136 | two accepted digit strings get the same text exactly when their rational values are equal |
| Decimals.CanonicalDecimalIdempotent | api/src/crypto/canonical-serialiser.ts:117-136 | re-normalising is the identity, and the normal texts are exactly the fixed points |
| NumberTexts.ExpandExponentialValue | api/src/crypto/canonical-serialiser.ts:200-224 | the expansion of an exponential text keeps its rational value and leaves no exponent |
| NumberTexts.ExpandExponentialNormal | api/src/crypto/canonical-serialiser.ts:189-224 | for the mantissas JavaScript writes, the expansion lands in the same normal form as `CanonicalDecimal` |
| JsonText.ParseEscaped | api/src/crypto/canonical-serialiser.ts:185-187 | a quoted string is self-delimiting: a reader of the strings of section 7 of RFC 8259 gets the string and the rest back, surrogates included |
| JsonText.ParsePrint | api/src/crypto/canonical-serialiser.ts:148-183 | every printed value is self-delimiting, whatever may follow it, under a reader that takes the texts of RFC 8259 without whitespace and with numbers in normal form |
| JsonText.ParseOfPrint | api/src/crypto/canonical-serialiser.ts:148-183 | that reader gets a printed document back whole |
| CanonicalMeaning.CanonicaliseDenotes | api/src/crypto/canonical-serialiser.ts:148-254 | the serialiser writes the printed form of the document a value means, and throws exactly where there is none |
| CanonicalMeaning.CanonicalTextParses | api/src/crypto/canonical-serialiser.ts:144-183 | canonical text is JSON, and reading it gives the document the value means |
| CanonicalEquality.AcceptedIff | api/src/crypto/canonical-serialiser.ts:148-254 | the serialiser throws exactly on undefined elements, non-finite numbers, invalid dates and unsupported types |
| CanonicalEquality.NumericSameIff | api/src/crypto/canonical-serialiser.ts:189-198 | a number and an exact decimal get the same text exactly when they are the same rational, `-0` being zero |
| CanonicalEquality.SameTextIffSameRecord | api/src/crypto/canonical-serialiser.ts:148-254 | values with pairwise distinct NFC keys get the same text exactly when they are equal up to key order, undefined-valued keys, NFC and the stated encodings |
| CanonicalReading.TextSays | api/src/crypto/canonical-serialiser.ts:148-254 | a reader of the text of an accepted value finds what the value says, one field for each property that is not undefined, and in every object, at every depth, each name goes on where an earlier one ends or holds the larger code unit where they first differ |
| CanonicalReading.CollidingInOrder | api/src/crypto/canonical-serialiser.ts:243-254 | properties whose keys become equal under NFC stand in the text in the order of insertion |
| CanonicalReading.DecimalReads | api/src/crypto/canonical-serialiser.ts:117-136 | a decimal text stands for its digits over ten for each digit behind the point, negative behind a minus sign |
| CanonicalReading.ExponentialReads | api/src/crypto/canonical-serialiser.ts:200-210 | an exponential text stands for its mantissa times, or behind a minus sign over, that power of ten |
| ShortestStrings.WrittenIsShortest | api/src/crypto/canonical-serialiser.ts:185-187 | of the texts without lone surrogates that read as a string, the one written is the shortest, and with lower-case hexadecimal digits the only one of its length |
| ShortestStrings.WrittenReadsBack | api/src/crypto/canonical-serialiser.ts:185-187 | what is written for a string is such a text |
| PropertyOrder.InsertionOrderIrrelevantIff | api/src/crypto/canonical-serialiser.ts:243-254 | without that assumption: all insertion orders of one object's own properties give one text exactly when properties with colliding keys have equal texts |
| PropertyOrder.CollidingOrdersDiffer | api/src/crypto/canonical-serialiser.ts:243-254 | two different keys that NFC makes equal, with different values, give each order of the two its own text |
| PropertyOrder.KelvinOrdersDiffer | api/src/crypto/canonical-serialiser.ts:243-254 | such an object: the Kelvin sign and the letter K as keys |
| NestedOrder.OrderHiddenIff | api/src/crypto/canonical-serialiser.ts:148-254 | reordering properties at any depth of an accepted value never changes its text exactly when at every depth properties with colliding keys have equal texts |
| CanonicalBytes.DecodeEncoded | api/src/crypto/canonical-serialiser.ts:139-141 | UTF-8 encoding loses nothing on text whose surrogates are paired |
| CanonicalBytes.CanonicalTextPaired | api/src/crypto/canonical-serialiser.ts:185-187 | canonical text never holds a lone surrogate, whatever strings went in |
| CanonicalBytes.SameBytesIffSameRecord | api/src/crypto/canonical-serialiser.ts:139-141 | the bytes that are hashed are equal exactly for the same record |
| JobRecordEquality.BuildSameIff | api/src/jobs/canonical-job-record.ts:132-188 | two inputs build the same record exactly when their scalar fields agree and their row lists are equal as id-keyed sets, a text reading counting only without a numeric one and decimals by value |
| JobRecordEquality.BuildOrderIrrelevant | api/src/jobs/canonical-job-record.ts:132-134 | permuting any row list leaves the record unchanged when ids are unique |
| JobRecordEquality.ContentTextIffSameRecord | api/src/jobs/canonical-job-record.ts:136-188 | every record that is built has a canonical text, and the text identifies it |
| RecordUpToNfc.SameRecordIffSameInput | api/src/jobs/canonical-job-record.ts:132-188 | two inputs give the same record up to canonical text exactly when they agree field by field with texts compared up to NFC |
| RecordReading.TextSaysRecord | api/src/jobs/canonical-job-record.ts:132-188 | a reader of the text finds, under each literal name and nowhere else, the column of that name: job, revision, submitter, and for each kind one element a row, in the order of the code units of the ids |
| SignedDocument.NewestSignatureSaysJob | api/src/jobs/integrity.service.ts:125-170 | in every reachable submitted, archived or voided job the newest signature verifies and signs the hash of a UTF-8 text that reads as the columns of that job, its status and actions spelled out, removed parts left out |
| JobRuns.AlreadyVerifiedIff | api/src/jobs/verification.service.ts:166-181 | the check by timestamps finds the actor exactly when a verification of the actor's lies in the current submission cycle |
| JobRuns.RunKeeps | api/src/jobs/verification.service.ts:76-188 | atomic requests in any order under an increasing clock keep the status, the stage and the current cycle's signatures consistent, and the newest signature current wherever the record is frozen |
| JobRuns.ArchivedIsFullySigned | api/src/jobs/verification.service.ts:115-188 | a reachable archived job has, since its last return or recall, one submission and one verification per stage in order, by pairwise different people none of whom is the submitter |
| JobRuns.NewestSignatureIsCurrent | api/src/jobs/integrity.service.ts:85-95 | in every reachable submitted, archived or voided job with steps, the rebuilt record hashes to the newest step's hash |
| MandatoryItems.SubmissionRefusedIff | api/src/jobs/submission.service.ts:143-170 | a submission that reads an IN_PROGRESS job is refused before its transaction exactly when a mandatory item has no result, or the blank in the title no number |
| MandatoryItems.FrozenJobIsComplete | api/src/jobs/submission-gate.ts:21-32 | in every interleaving each mandatory item of a submitted or archived job is the `templateItemId` of one of its results |
| MandatoryItems.SubmissionReadAll | api/src/jobs/submission.service.ts:150-156 | in every interleaving the job that a submission in flight read had a result for each mandatory item |
| MandatoryItems.AtomicJobIsComplete | api/src/jobs/submission.service.ts:150-156 | so it is after any run of atomic requests |
| RequestOutcomes.ContentHashReadable | api/src/jobs/canonical-job-record.ts:150-170 | the service's content hash exists exactly where every stored number is a plain decimal, as the outcomes below assume |
| RequestOutcomes.VerifyOutcome | api/src/jobs/verification.service.ts:76-188 | on every reachable job a verification is let through exactly for somebody eligible who has signed nothing in the current cycle, submission included; it signs the next stage as its request says and archives the job with the last, and writes nothing else |
| RequestOutcomes.SubmitOutcome | api/src/jobs/submission.service.ts:143-256 | a submission is let through exactly on an IN_PROGRESS job with a result for each mandatory item and no blank in the title; what it writes |
| RequestOutcomes.BreakOutcome | api/src/jobs/approval-transitions.service.ts:47-120 | a return is let through exactly on a SUBMITTED job, a recall only by whoever signed the submission of the cycle; what they write |
| RequestOutcomes.VoidOutcome | api/src/jobs/approval-transitions.service.ts:122-219 | a void is let through exactly on a job that is not voided, by an administrator where it is archived; what it writes |
| RequestOutcomes.AssignOutcome | api/src/jobs/assignment.service.ts:60-105 | an assignment is let through exactly before submission, to somebody assignable; what it writes |
| RequestOutcomes.ItemOutcome | api/src/jobs/results.service.ts:53-110 | an item result is recorded exactly on an open job, for an item of its template, at the draft version seen: the first row of the item or a new one, the start of the job, the next draft version, and nothing else |
| RequestOutcomes.MeasurementOutcome | api/src/jobs/results.service.ts:140-268 | a measurement likewise |
| RequestOutcomes.PartOutcome | api/src/jobs/parts.service.ts:39-216 | a part is stored exactly on an open job, a new one under an id not in use, a known one with its own job; the first row of the id or a new one, shown or removed as asked, and nothing else |
| RequestOutcomes.AttachOutcome | api/src/jobs/attachments.service.ts:58-165 | an image is attached exactly to an open job below its cap, and to a result of that job where one is named |
| JobStore.JobTable.Assign | api/src/jobs/assignment.service.ts:86-105 | the status-pinned update of the row, as the protocol's commit says |
| JobStore.JobTable.Submit | api/src/jobs/submission.service.ts:198-356 | the guarded submission and its stage-0 step, rolled back as a whole when building the record throws |
| JobStore.JobTable.Verify | api/src/jobs/verification.service.ts:115-300 | the guarded stage advance, the cycle check and the signed step, rolled back as a whole on refusal |
| JobStore.JobTable.RunTransition | api/src/jobs/approval-transitions.service.ts:227-345 | return, recall and void: the guarded update and the signed step in one transaction |
| JobStore.JobTable.RecordResult | api/src/jobs/results.service.ts:53-268 | the checks on the job that was read, then the result upsert, the draft version and the unguarded status write on the row that is found, rolled back where the table refuses an archived or voided row |
| JobStore.JobTable.RecordPart | api/src/jobs/parts.service.ts:39-100 | the check on the job that was read, then a new part on the row that is found, whatever its status |
| JobStore.JobTable.UpsertPart | api/src/jobs/parts.service.ts:119-216 | the check on the job that was read, then the part by its id: created, or updated and shown or hidden, whatever the status of the row that is found; not found where the id is taken by another job |
| JobStore.JobTable.Upload | api/src/jobs/attachments.service.ts:58-165 | the checks in their order on the file and the job that was read, then a new attachment on the row that is found, whatever its status |
| JobStore.VerifiedThisCycle | api/src/jobs/verification.service.ts:166-181 | the two passes over the steps compute the protocol's cycle check |
| SplitRuns.CommitTakesLegalEdge | api/src/jobs/job-state-machine.ts:25-52 | whatever was read before, a commit takes the legal edge of its request from the status held at that moment |
| SplitRuns.CaptureTakesLegalEdgeIff | api/src/jobs/results.service.ts:254-267 | the write of a capture leaves the status or takes START, except exactly where it read ASSIGNED and finds the job neither ASSIGNED, IN_PROGRESS, ARCHIVED nor VOIDED |
| SplitRuns.EveryChangeIsLegalIff | api/src/jobs/job-state-machine.ts:25-52 | the status changes of an interleaved run all take legal edges of their own requests exactly when no capture that read ASSIGNED writes a job submitted since |
| SplitRuns.LateCaptureReopens | api/src/jobs/results.service.ts:254-267 | such a run from a new job: two captures, a submission, and the late write that reopens the job without return or recall |
| SplitRuns.StagesInEveryInterleaving | api/src/jobs/verification.service.ts:119-134 | in every interleaving without such a late write each stage is verified at most once per submission cycle, an archived job went through every stage in order, and VERIFIED is never held |
| SplitRuns.TerminalStatusesHold | api/prisma/migrations/20260728000000_void_annotation_post_archive/migration.sql:35-59 | VOIDED is never left and ARCHIVED only to VOIDED, whatever requests and captures are in flight |
| RowWrites.RowFollowsAll | api/src/jobs/results.service.ts:83-103 | over any run of upserts with one row per key a row is as the newest write to its key made it, and otherwise as it was |
| RowWrites.RowsUnchangedIff | api/src/jobs/parts.service.ts:158-177 | what is read of the rows after any run of inserts and upserts, softly removed ones left out, is the same id-keyed set exactly when the newest write to each key repeats what was there |
| InterleavedSignatures.RunHolds | api/src/jobs/results.service.ts:82-108 | after any interleaving the results, parts, attachments and the submitter are what the committed captures and submissions made of what was there, and but for status and steps nothing else of the signed data changed |
| InterleavedSignatures.ArchivedResultsKept | api/prisma/migrations/20260728000000_void_annotation_post_archive/migration.sql:42-54 | the results and the submitter of an archived or voided job stay as they are, whatever is in flight |
| LateCaptures.ArchivedRowsKeptIff | api/src/jobs/parts.service.ts:148-177 | whatever is in flight at an archived or voided job, all that still lands are parts and attachments that read it while it could be written, and what is signed of its rows stays the same exactly when they repeat what it held |
| LateCaptures.ArchivedDataKept | api/src/jobs/attachments.service.ts:88-140 | every row of an archived or voided job is kept while no part and no attachment lands |
| LateCaptures.LateAttachmentShows | api/src/jobs/attachments.service.ts:88-140 | a run from a new job, every move lawful: an attachment uploaded while the job was open lands after archiving, adds a row to the archived record and makes it fail its check |
| RevisedRows.SignedRowsKeptIff | api/src/jobs/canonical-job-record.ts:136-188 | a run of writes leaves the signed results, parts and attachments as they were exactly when the newest write to each row repeats it, texts up to NFC and decimals by value |
| InterleavedSignatures.NewestHasWriter | api/src/jobs/submission.service.ts:195-300 | in every interleaving that ends submitted, archived or voided, some request of the run wrote the newest step |
| RevisedRows.HashKeptIff | api/src/crypto/content-hash.ts:12-14 | a run of writes leaves the content hash as it was exactly when the newest write to each result, part and attachment repeats what was read and the submitter is the same |
| StaleSignatures.NewestSignatureCurrentIff | api/src/jobs/submission.service.ts:201-256 | after any interleaving the newest signature of a submitted, archived or voided job is of the record as it stands exactly when no result, part, attachment or other submission that committed since the signer's read changed what was read |
| StaleSignatures.QuietSignatureIsCurrent | api/src/jobs/approval-transitions.service.ts:272-335 | with no capture of a result, part or attachment and no other submission committing since the signer's read, the newest signature is current |
| StaleSignatures.StaleSubmissionSigned | api/src/jobs/submission.service.ts:201-256 | a run from a new job, every move lawful, whose submission signs a result that was recorded anew meanwhile: it ends submitted and fails its integrity check |
| InterleavedIntegrity.IntegrityPassesIff | api/src/jobs/integrity.service.ts:85-95 | after any interleaving the hash check of a submitted, archived or voided job passes exactly when the step latest in time is the last committed one and nothing was revised since that one's read |
| InterleavedIntegrity.LateVoidFailsCheck | api/src/jobs/integrity.service.ts:85-95 | a run from a new job, every move lawful and nothing revised, that ends voided with a current signature and fails the hash check, a verification being later in time than the void that commits after it |
| CycleCheck.VerifiedInIff | api/src/jobs/verification.service.ts:166-181 | someone has verified in the current cycle exactly when a verification of theirs committed with no return or recall committed since |
| CycleCheck.AlreadyVerifiedMovesIff | api/prisma/migrations/20260727090000_distinct_stage_verifiers/migration.sql:26-38 | the check by times finds someone exactly when a verification of theirs that committed had started later than every return and recall committed so far |
| InterleavedSigners.SignersDifferIff | api/src/jobs/verification.service.ts:166-181 | throughout an interleaved run without a late write the signers of a cycle differ exactly when no two moves end verifications by one person that meet status, stage and submitter, without a return or recall between them, the first started no later than an earlier return or recall |
| InterleavedSigners.ArchivedByDifferentPeople | api/src/jobs/verification.service.ts:115-188 | when no verification commits behind a return or recall that is not earlier than its start, an archived job has one submission and one verification per stage by pairwise different people |
| InterleavedSigners.OnePersonSignsTwice | api/src/jobs/verification.service.ts:166-181 | a run from a new job, every move lawful and the starts in order of time, that archives it with both stages verified by one person |
| InterleavedSigners.CheckErrsIff | api/src/jobs/verification.service.ts:166-181 | the check passes someone who has signed the cycle exactly when all their verifications started no later than some return or recall, and refuses someone who has not exactly when one did not but each was followed by a return or recall |
| InterleavedSigners.SupersededSignatureRefuses | api/src/jobs/verification.service.ts:166-181 | a run from a new job, every move lawful and the starts in order of time, after which someone who has not signed the current cycle is refused for having signed |
| RecordIntegrity.CheckIntegrity | api/src/jobs/integrity.service.ts:71-122 | for the steps in order of their times the check reports intact exactly when every signature verifies and the newest hash is that of the rebuilt record, with the per-step report of each |
| RecordIntegrity.ReachableRecordIsIntact | api/src/jobs/integrity.service.ts:86-95 | after any run of atomic requests the check finds a submitted, archived or voided job intact |
| RecordIntegrity.ContentHashIff | api/src/crypto/content-hash.ts:12-14 | content hashes of records agree exactly on the same record |
| RecordIntegrity.ContentHashIffSameInput | api/src/crypto/content-hash.ts:12-14 | content hashes agree exactly when the rows they were computed from agree field by field: rows as id-keyed sets, decimals by value, texts up to NFC |
| RecordIntegrity.TamperingShows | api/src/jobs/integrity.service.ts:71-106 | a row put in place of a reachable submitted, archived or voided job, with its newest hash kept, passes the check exactly when its signatures verify and it still says what was signed |
| Idempotency.KeyTable.Check | api/src/common/idempotency.service.ts:55-72 | the replay check: unseen, the stored response, or a mismatch of user or fingerprint |
| Idempotency.KeyTable.RecordWithin | api/src/common/idempotency.service.ts:74-90 | the insert succeeds exactly on a new key and stores the caller's response |
| Idempotency.CheckedRequest | api/src/common/idempotency.service.ts:55-72 | whatever has happened, a request ends with response x at its check exactly when a mutation of its key, user and fingerprint committed with x; it goes on exactly when none of its key has committed; otherwise it is refused |
| Idempotency.TransactedRequest | api/src/common/idempotency.service.ts:74-90 | a mutation that goes through commits, with its own response, exactly when none of its key has committed since the check; otherwise nothing is stored |
| Idempotency.OneMutationPerKey | api/src/common/idempotency.service.ts:55-90 | in every interleaving each key's mutation commits at most once, and all successes of a key are that mutation's user, fingerprint and response |
| Idempotency.ResponseIsFinal | api/src/common/idempotency.service.ts:55-90 | a stored response is never replaced |
| AuditContent.ContentSame | api/prisma/migrations/20260723180000_invariants/migration.sql:123-149 | two hashed texts are equal exactly when the joined columns and the predecessors' digests are |
| AuditChain.WalkChainPage | api/src/audit/chain-verification.logic.ts:75-98 | the walk stops at the least row whose link or content fails and carries the state of the rows before it |
| AuditChain.RowsAfterResumes | api/src/audit/chain-verification.service.ts:140-170 | keyset paging on `sequence` resumes exactly behind the last row seen |
| AuditChain.Verify | api/src/audit/chain-verification.service.ts:86-120 | for any page size from 1 the paged scan reports what one walk of the whole table reports, and its event count |
| AuditTampering.WalkFindsFirstBroken | api/src/audit/chain-verification.logic.ts:75-98 | where the walk stops is the least row that does not link to its predecessor or hash to its own digest |
| AuditTampering.IntactIffBuilt | api/prisma/migrations/20260724010000_asset_type_form_template_unique_and_audit_chain_lock/migration.sql:60-97 | a table passes exactly when it is what inserts alone produce |
| AuditTampering.PrefixIntact | api/src/audit/chain-verification.service.ts:65-80 | cutting off the newest rows is not seen |
| AuditTampering.RecomputeDiscriminates | api/prisma/migrations/20260723180000_invariants/migration.sql:123-149 | with a collision-free hash the recomputed digests of two rows agree exactly when their links and hashed column texts do |
| AuditTampering.DigestsDistinct | api/src/audit/chain-verification.logic.ts:61-74 | no two rows of an intact chain share a digest, hashing being collision-free |
| AuditTampering.PickBreaks | api/src/audit/chain-verification.logic.ts:61-74 | after deleting, reordering or repeating rows the break is at the first row out of place |
| AuditTampering.PickIntactIff | api/src/audit/chain-verification.logic.ts:61-74 | a selection of rows passes exactly when it is a prefix |
| AuditTampering.OneFieldBreaksThere | api/src/audit/chain-verification.logic.ts:61-74 | changing only the columns' text, only the link or only the digest of a row breaks at that row |
| AuditTampering.RewriteIntactIff | api/src/audit/chain-verification.logic.ts:61-74 | a rewritten row goes unseen exactly when its link is kept, it hashes to its digest, and it is the newest row or kept its hashed text |
| AuditTampering.RewriteBreaksNearby | api/src/audit/chain-verification.logic.ts:75-98 | a rewrite that is seen is seen at that row or the next |
| AuditTampering.InsertionIntactIff | api/src/audit/chain-verification.logic.ts:61-74 | a forged row goes unseen exactly as a well-linked newest row |
| AuditTampering.OneColumnShows | api/prisma/migrations/20260723180000_invariants/migration.sql:132-145 | changing the text of any one column changes the hashed text |
| AuditTampering.ColumnTextSameIff | api/prisma/migrations/20260723180000_invariants/migration.sql:132-145 | while no column holds the separator, the hashed text determines every column, NULL read as empty |
| AuditReading.HashedTextReads | api/prisma/migrations/20260723180000_invariants/migration.sql:132-145 | while no column holds the separator, the hashed text cut at its separators is the eleven columns in their places and the digest of the row before in lower-case hexadecimal |
| AuditTampering.BarFreeRewriteIntactIff | api/src/audit/chain-verification.logic.ts:61-74 | a rewrite without separators goes unseen exactly when link and digest fit and, behind the newest row, every column reads as before |
| AuditTampering.SeparatorCollision | api/prisma/migrations/20260723180000_invariants/migration.sql:132-145 | for any row without entity id, before, after and address whose request id starts with the separator, moving the separator to the entity type leaves the hashed text as it was |
| AuditTampering.SeparatorRewriteUnseen | api/src/audit/chain-verification.logic.ts:61-74 | a row so rewritten, anywhere in an intact chain, leaves the chain intact |
| AuditTampering.UnhashedFieldsUnseen | api/prisma/migrations/20260723180000_invariants/migration.sql:132-145 | changes of `sequence` that keep the order, and of `created_at`, are not seen |
| Calendar.FieldsOfDayOf | api/src/scheduling/completion-cascade.ts:38-50 | a date's fields read back from its day number are that date's |
| Calendar.OrdersAgree | api/src/scheduling/planner-projection.ts:74-84 | comparing day numbers is comparing year, month and day |
| CivilCalendar.DayOfIsCivil | api/src/scheduling/completion-cascade.ts:38-50 | the dates are those of the civil calendar, and the number of a date is the closed form in its year, month and day, counted from March with leap days every 4, not 100, but 400 years |
| CivilCalendar.FourHundredYears | api/src/scheduling/completion-cascade.ts:38-50 | four hundred years have 146097 days |
| CivilCalendar.EpochDay | api/src/scheduling/completion-cascade.ts:38-50 | 1 January 1970 is day 719528 |
| CivilCalendar.DateOfDay | api/src/scheduling/completion-cascade.ts:38-50 | every day has a date |
| CivilCalendar.AddsCivilMonths | api/src/scheduling/completion-cascade.ts:38-50 | the sum of a civil date and a number of months lies that many months on, on the same day or the last there is in that month; years below 100 count as of the twentieth century |
| Calendar.AddsMonthsIff | api/src/scheduling/completion-cascade.ts:38-50 | the addition moves by exactly that many months if and only if the year is at least 100 |
| Calendar.AddIncreases | api/src/scheduling/completion-cascade.ts:38-50 | clamped addition is strictly increasing in the months added |
| Calendar.AddMovesForward | api/src/scheduling/completion-cascade.ts:38-50 | a positive number of months moves a date strictly forward |
| Calendar.AddComposesIff | api/src/scheduling/planner-projection.ts:38-45 | stepping from a clamped date agrees with counting from the anchor exactly when the month between is long enough |
| PlannerProjection.OccurrencesIncrease | api/src/scheduling/planner-projection.ts:71-76 | later steps fall on later days, which makes the early break sound |
| PlannerProjection.OccurrenceKeepsDay | api/src/scheduling/planner-projection.ts:38-45 | each visit lies the full number of intervals from the anchor, on the anchor's day or the month's last |
| PlannerProjection.ProjectVisitDates | api/src/scheduling/planner-projection.ts:53-82 | strictly ascending, and exactly the visits of steps 0 to 255 that lie in the window; an interval below 1 does not recur |
| PlannerProjection.ProjectionUnique | api/src/scheduling/planner-projection.ts:53-82 | only one list meets that contract |
| PlannerProjection.CeilingIff | api/src/scheduling/planner-projection.ts:24-32 | a window opening by step 256 is complete exactly when it closes before that step; a later window is drawn empty |
| PlannerProjection.LoneVisitDrawnIff | api/src/scheduling/planner-projection.ts:24-32 | a window around one visit shows it exactly when fewer than 256 visits precede it |
| PlannerProjection.ParseIffWritten | api/src/scheduling/planner-projection.ts:99-118 | a text is accepted as a day exactly when it is that day's date text and the year is at most 9999 |
| PlannerProjection.ParseIffSpelled | api/src/scheduling/planner-projection.ts:99-118 | a text is accepted as a date of the civil calendar up to year 9999 exactly when its digits and hyphens spell that date |
| CompletionCascade.ScheduleTable.Apply | api/src/scheduling/completion-cascade.service.ts:32-74 | every rule of the document with a frequency in scope restarts from the verification day, every other rule is untouched, and each scope entry that found a rule leaves one audit row |
| CompletionCascade.ScheduleTable.Recompute | api/src/scheduling/void-schedule-recompute.service.ts:47-109 | every rule of the document with a frequency in scope goes to the newest completion that remains, or without one is cleared and falls due when the voided job did; every other rule is untouched, and each scope entry that found a rule leaves one audit row |
| CompletionCascade.FindPrior | api/src/scheduling/void-schedule-recompute.service.ts:68-79 | the look-up in the jobs finds the time of the newest completion that counts |
| CompletionCascade.NewestVerifiedIs | api/src/scheduling/void-schedule-recompute.service.ts:68-79 | that time is the latest of the archived jobs of the document other than the excluded one whose frozen scope holds the frequency, and there is none exactly without such a job |
| CompletionCascade.DueAfterCompleted | api/src/scheduling/completion-cascade.ts:56-65 | a completed rule falls due strictly after its completion day |
| ScheduleHistory.StandsByNewestIff | api/src/scheduling/completion-cascade.service.ts:44-73 | a rule stands where its newest remaining completion puts it exactly unless it was last moved by a completion of an earlier day than one that remains |
| ScheduleHistory.NeverMovesBackIff | api/src/scheduling/completion-cascade.service.ts:44-73 | a rule's completion day never moves back and is never cleared exactly when completions come in the order of their days and each withdrawn one leaves another of its day or later |
| ScheduleHistory.AsIfNeverIff | api/src/scheduling/void-schedule-recompute.service.ts:7-21 | a withdrawal leaves a rule as if the completion had never been, except where nothing else ever moved it and it did not start cleared and due when the job was, where nothing remains and the one withdrawn before was due on another day, or where the last other event credited an earlier day than one that remains |
| ScheduleHistory.AsIfNeverLater | api/src/scheduling/void-schedule-recompute.service.ts:7-21 | once another event has followed, a withdrawn completion has left no trace |
| CompletionRuns.ArchivesIff | api/src/jobs/verification.service.ts:119-154 | the cascade takes effect exactly with the transaction that archives the job, and that one's start is the time of verification |
| CompletionRuns.VoidsArchivedIff | api/src/jobs/approval-transitions.service.ts:195-219 | the recompute takes effect exactly with the transaction that takes a job out of ARCHIVED, which voids it |
| CompletionRuns.RuleMovesOnly | api/src/jobs/approval-transitions.service.ts:206-216 | a rule moves only when a job of its document with its frequency in the frozen scope is archived, or is voided while archived |
| CompletionRuns.RulesFollowEvents | api/src/scheduling/void-schedule-recompute.service.ts:61-89 | over any interleaving on any number of jobs a rule's dates are those of its history of archivings and voids, the look-up finding the newest completion that remains |
| PlantSchedule.RuleStandsByArchivedIff | api/src/scheduling/completion-cascade.service.ts:44-73 | after any interleaving a rule that was moved stands where the newest completion still archived puts it, or without one at the due date of the job voided last, exactly unless the last move archived a job verified on an earlier day than one still archived |
| PlantSchedule.RuleFallsDueLater | api/src/scheduling/completion-cascade.ts:56-65 | after any interleaving a moved rule that has a completion day falls due one interval after it, strictly later |
| CivilSchedule.RuleFallsDueByFrequency | shared/src/frequency.ts:18-32 | a moved rule with a completion day falls due one, three, six or twelve civil months after it, by its frequency |
| CivilSchedule.UtcDateIsDay | api/src/scheduling/completion-cascade.ts:56-65 | an instant falls on the UTC day that begins no later and less than 86400000 ms before it |
| CivilSchedule.ArchivingRestarts | api/src/jobs/verification.service.ts:136-154 | the transaction that archives a job restarts every rule of its document with a frequency in its scope from the day on which the final verification started, and no other rule |
| CivilSchedule.VoidingFallsBack | api/src/scheduling/void-schedule-recompute.service.ts:61-89 | the transaction that voids an archived job restarts each rule it covers from the latest verification of another job still archived that covers it, or clears it and lets it fall due when the voided job did; no other rule moves |
| CivilSchedule.AuditRowsIff | api/src/scheduling/void-schedule-recompute.service.ts:90-106 | the audit rows are, for each frequency in scope that has a rule, one of the document that names the dates set, the job and its actor |
| PlantSchedule.CompletedOnNeverBackIff | api/src/jobs/verification.service.ts:136-154 | over any interleaving a rule's `lastCompletedOn` never moves back and is never cleared exactly when the jobs that cover it are archived in the order of their days, none before the day it started with, and each void leaves another archived one of its day or later |
| PlantSchedule.AsIfNeverCompletedIff | api/src/scheduling/void-schedule-recompute.service.ts:7-21 | right after an archived job is voided a rule it covers stands where the run without that job's moves leaves it exactly when the rule's history leaves no trace of the job |
| PlantSchedule.AsIfNeverCompletedLater | api/src/scheduling/void-schedule-recompute.service.ts:7-21 | once another job has moved the rule since, it stands where the run without the voided job leaves it |
| VoidedCompletions.VoidClearsRule | api/src/scheduling/void-schedule-recompute.service.ts:81-89 | a run on a new job, archived and then voided, that leaves a rule cleared and due when the job was, whatever it stood at |
| VoidedCompletions.LastVoidDecides | api/src/scheduling/void-schedule-recompute.service.ts:81-89 | a run on two new jobs, both archived and both voided, that leaves a rule due when the one voided last was |
| CompletionRuns.AdHocMovesNothing | api/src/jobs/adhoc-job.service.ts:235-237 | a job with an empty scope leaves every rule as it was |
| FrequencyCascade.ScopeIff | api/src/scheduling/frequency-cascade.ts:38-71 | a frequency is in scope exactly when an item of it is in the override, or without one has an interval other than 0 of which the job's is a multiple |
| FrequencyCascade.ScopeAscending | api/src/scheduling/frequency-cascade.ts:63-71 | the scope is ascending by interval and free of repetition |
| FrequencyCascade.ScopeIsOfTheSet | api/src/scheduling/frequency-cascade.ts:50-71 | reordering or repeating items or override entries leaves the scope the same list |
| FrequencyCascade.ScopeClosedDownward | api/src/scheduling/frequency-cascade.ts:26-48 | without an override, a frequency with items whose interval divides that of a member is a member |
| FrequencyCascade.StandardScope | shared/src/frequency.ts:18-32 | with the standard intervals the scope is every frequency that has items and is no longer than the job's |
| RenderSemaphore.Semaphore.Create | api/src/pdf/render-semaphore.ts:21-25 | a cap below one is refused |
| RenderSemaphore.Semaphore.Acquire | api/src/pdf/render-semaphore.ts:36-47 | a free permit is taken at once, otherwise the caller queues behind everyone waiting |
| RenderSemaphore.Semaphore.Release | api/src/pdf/render-semaphore.ts:59-68 | a first release frees the permit and grants it to the head of the queue; a second one does nothing |
| RenderSemaphore.RunKeeps | api/src/pdf/render-semaphore.ts:17-69 | every run grants in arrival order, keeps the count equal to unreleased permits and within the cap, and has waiters only at the cap |
| RenderSemaphore.GrantedIff | api/src/pdf/render-semaphore.ts:36-68 | a caller holds or held a permit exactly when fewer than the cap plus the releases so far arrived before it |
| RenderSemaphore.ActiveIsUnreleased | api/src/pdf/render-semaphore.ts:27-29 | the active count is the number of granted permits not released, at most the cap |
| RenderSemaphore.FirstReleaseGrantsHead | api/src/pdf/render-semaphore.ts:62-67 | a first release with waiters grants exactly the longest waiter |
| RenderSemaphore.ReleaseOnce | api/src/pdf/render-semaphore.ts:60-63 | releasing again, at any later time, changes nothing |
| RenderSemaphore.ReleasedIff | api/src/pdf/render-semaphore.ts:36-68 | the arrivals are the calls of `acquire`, and a ticket counts as released exactly after a release that found it granted |
| UpdateGate.UpdateModule.BeginCriticalWork | web/src/update.ts:118-121 | opens one more critical section with its own handle |
| UpdateGate.UpdateModule.ReleaseCriticalWork | web/src/update.ts:122-130 | closes the section once, and applies a deferred update at the last one |
| UpdateGate.UpdateModule.ApplyUpdate | web/src/update.ts:194-206 | reloads once per page, or defers during critical work or a reload storm |
| UpdateGate.UpdateModule.ApplyUpdateNow | web/src/update.ts:224-236 | a tap is not held by the breaker but still waits for critical work |
| UpdateGate.CounterIsUnreleased | web/src/update.ts:118-135 | on every run the counter is the number of handles not released |
| UpdateGate.NoReloadWhileCritical | web/src/update.ts:194-236 | no event asks for a reload while a critical section is open |
| UpdateGate.TapReloadsIff | web/src/update.ts:224-236 | a tap reloads exactly unless a section is open or this page has asked already, reload storm or not |
| UpdateGate.UpdateReloadsIff | web/src/update.ts:194-206 | an update reloads exactly unless, besides, three reloads lie within 120000 ms; what is held back by section or storm is deferred |
| UpdateGate.UnreadableLogHoldsNothing | web/src/update.ts:253-272 | without readable storage no update is held by the breaker |
| UpdateGate.ReleasedIff | web/src/update.ts:118-135 | a section is closed exactly when it was released since the page was loaded |
| UpdateGate.OneReloadPerPage | web/src/update.ts:194-236 | a page load asks for at most one reload |
| UpdateGate.LastReleaseApplies | web/src/update.ts:125-128 | the last release applies a deferred update exactly unless the breaker holds it |
| UpdateGate.DeferralIsKept | web/src/update.ts:165-179 | a deferral lasts until the page goes away, and a retry lands it exactly when no section is open and no storm is on |
| UpdateGate.FourReloadsSpanWindow | web/src/update.ts:253-280 | with working storage and a clock that does not go back, an automatic reload comes at least 120000 ms after the third reload before it, across page loads |
| UpdateGate.StormIffThreeRecent | web/src/update.ts:257-272 | the breaker is on exactly while the third newest reload is younger than the window |
| ExportCsv.BuildExportManifestCsv | api/src/exports/export-csv.ts:28-56 | the manifest reads back, by section 2 of RFC 4180, as the header and every row's fields |
| ExportCsv.WrittenReadsBack | api/src/exports/export-csv.ts:28-56 | any records of any fields read back unchanged, commas, quotes, CR and LF included |
| ExportCsv.SameManifestIff | api/src/exports/export-csv.ts:36-56 | manifests are equal exactly when the rows' fields are, a null `archivedAt` being the empty one |
| ExportCsv.CellsByName | api/src/exports/export-csv.ts:17-56 | read back, each row holds under each literal header name the field of that name, an empty one for a null `archivedAt` |
| Pagination.OverfetchByOne | api/src/common/pagination.ts:50-63 | one row more than the limit decides the page, `hasMore` and the next cursor as all rows would: the first `limit` rows, whether there are more, and the id of the last one shown if there are |
| Pagination.NextCursorResumes | api/src/common/pagination.ts:33-48 | the next cursor selects exactly the rows behind the page |
| Pagination.WalkYieldsAll | api/src/common/pagination.ts:33-63 | following the cursors terminates and yields every row behind the start once and in order, for any limit from 1 |
| Pagination.PagesFull | api/src/common/pagination.ts:50-63 | every page but the last holds exactly the limit |
| Queue.EligibleEntriesFor | api/src/queue/queue.service.ts:92-120 | the entries of the fetched candidates whose current stage one of the identity's roles satisfies |
| Queue.DedupeById | api/src/queue/queue.service.ts:124-133 | keeps the first entry of each id |
| Queue.GetQueue | api/src/queue/queue.service.ts:48-89 | a page of the merged, deduplicated, sorted queue at the cursor |
| Queue.MergedAscends | api/src/queue/queue.service.ts:73-74 | the merged queue is strictly ascending by id |
| Queue.FetchedIff | api/src/queue/queue.repository.ts:100-116 | a candidate is fetched exactly when fewer than 500 candidates have smaller ids |
| Queue.CapHidesAJob | api/src/queue/queue.repository.ts:7-20 | with 501 jobs awaiting a verifier, one the verifier may verify is missing from the queue |
| Queue.OwnEntryWins | api/src/queue/queue.service.ts:123-133 | the caller's own entry is kept where a delegated one lists the same job |
| Queue.QueueWalk | api/src/queue/queue.service.ts:73-88 | following the cursors lists jobs in strict id order, and a job exactly when the caller or a delegator is eligible for it within the cap |

## Left out

- Database triggers: those that keep archived and voided rows and refuse a verification by the submitter are in the model; the one for distinct verifiers repeats the service's own check in the same transaction, and those for revisions, and the length of reasons, are not modelled.
- JobStore.JobTable.Submit: the audit row, the drawn signature and the idempotency insert of the same transaction are not in its contract; idempotency is modelled on its own.
- JobStore.JobTable.Verify: the audit row, the drawn signature and the idempotency insert are not in its contract; the cascade call is modelled in `CompletionRuns`.
- JobStore.JobTable.RunTransition: the audit row and the idempotency insert are not in its contract; the recompute after a void of an archived job is modelled in `CompletionRuns`.
- JobStore.JobTable.RecordPart: remarks and who recorded a part are not signed and not modelled; likewise for `UpsertPart`.
- JobStore.JobTable.Upload: whether the file is a recognised image and whether the count is below the cap are inputs, and storing the object outside the database always succeeds.
- InterleavedIntegrity.IntegrityPassesIff: between steps of equal time the database may put either last, and the statement is about whichever it does.
- Integrity between a return or recall and the next submission: results are editable again without a new step, so the claim covers submitted, archived and voided jobs.
- SHA-256, Ed25519, field encryption and drawn signatures: hashing is a collision-free function, signing a function whose results verify.
- Unicode NFC tables, the digits of `Number.toString`, and `Date` beyond UTC calendar dates: parameters with the few facts used. Instants outside the range of `Date`, where it becomes invalid, are not modelled.
- Role lists, area scope, step-up authentication and delegation look-ups of the approval requests: whether the caller is eligible is an input.
- The measurement judgement, and whether the title has a blank that no machine number fills: inputs; the number is not part of the signed record.
- Idempotency: expiry of keys and requests sent without a key.
- CompletionCascade.ScheduleTable.Apply: `updateMany` is one assignment to the table, and the audit rows are kept in a list of their own, not in the hash chain.
- CompletionCascade.ScheduleTable.Recompute: the same, and the audit row does not name the job the dates were taken from.
- CompletionRuns: rules adjusted by a planner, and jobs generated or rescheduled, during a run; the jobs are those there at its start.
- AuditContent: the casts of Postgres (`timestamptz`, `jsonb`, `inet`, `uuid` to text) are given texts; a `NULL` and an empty `request_id` hash alike, as in the trigger.
- UpdateGate: listeners, the service-worker and asset checks that lead to a call, and a session log that holds something other than a list of numbers.
- RenderSemaphore: the promise machinery of `acquire`, and `withPermit`, which calls both methods in turn.
- Pagination: base64url coding of cursors and the clamping of limits; a cursor is the id itself.
- Queue: agreement between delegated entries and what `verify` accepts, since the two use different role tests; display fields of an entry. The database's order of ids is taken to be the code-unit order of their texts.
- Calendar: dates before year 0, and in `CompletionCascade.UtcDate` instants before it, which count as the first day.
- FrequencyCascade: non-integer intervals.
- Job generation, account lockout, exports other than the manifest, notifications, screens and the HTTP layer: easy members beside the above, or plumbing.

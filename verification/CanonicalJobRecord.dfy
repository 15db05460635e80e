/**
 The record that approval steps sign: the job, its revision, its submitter, its results, parts,
 attachments and approval steps, with every row list put in id order.
 */
module CanonicalJobRecord {
  import opened Wrappers
  import opened Texts
  import opened Decimals
  import opened NumberTexts
  import opened CanonicalSerialiser
  import opened CanonicalEquality

  // ---------------------------------------------------------------- the input rows

  /** Milliseconds since the epoch. */
  type Instant = int

  ghost predicate IsDateFormat(f: Instant -> AsciiText) {
    forall a: Instant, b: Instant :: f(a) == f(b) ==> a == b
  }

  /** `Date.prototype.toISOString`, of which only injectivity is used. */
  type DateFormat = f: Instant -> AsciiText | IsDateFormat(f) witness (IntTextsDiffer(); (a: Instant) => IntText(a))

  lemma IntTextsDiffer()
    ensures forall a: int, b: int :: IntText(a) == IntText(b) ==> a == b
  {
    forall a: int, b: int | IntText(a) == IntText(b) ensures a == b {
      IntTextInjective(a, b);
    }
  }

  datatype JobHeader = JobHeader(
    id: Text, jobNumber: Text, assetId: Text, templateRevisionId: Text, frequency: Text, status: Text)

  datatype TemplateRevision = TemplateRevision(
    id: Text, formTemplateId: Text, revisionCode: Text, sequenceOrdinal: int)

  datatype Submitter = Submitter(userId: Option<Text>, submittedAt: Option<Instant>)

  datatype ItemResult = ItemResult(id: Text, templateItemId: Text, status: Text, remark: Option<Text>)

  datatype MeasurementResult = MeasurementResult(
    id: Text, templateMeasurementId: Text, readingNumeric: Option<Text>, readingText: Option<Text>, judgement: Text)

  datatype PartUsed = PartUsed(id: Text, partNo: Option<Text>, description: Text, quantity: Text)

  datatype Attachment = Attachment(id: Text, sha256Hex: Text)

  datatype ApprovalStep = ApprovalStep(
    id: Text, stageOrdinal: int, action: Text, actorId: Text, onBehalfOfId: Option<Text>, reason: Option<Text>,
    actedAt: Instant)

  datatype RecordInput = RecordInput(
    job: JobHeader,
    revision: TemplateRevision,
    submitter: Submitter,
    itemResults: seq<ItemResult>,
    measurementResults: seq<MeasurementResult>,
    partsUsed: seq<PartUsed>,
    attachments: seq<Attachment>,
    approvalSteps: seq<ApprovalStep>)

  /** A `NUMERIC` column whose text is not a plain decimal makes `CanonicalDecimal` throw. */
  datatype BuildError = MalformedDecimal

  // ---------------------------------------------------------------- property names

  const ID: AsciiText := Ascii("id")
  const TEMPLATE_ITEM_ID: AsciiText := Ascii("templateItemId")
  const STATUS: AsciiText := Ascii("status")
  const REMARK: AsciiText := Ascii("remark")
  const TEMPLATE_MEASUREMENT_ID: AsciiText := Ascii("templateMeasurementId")
  const READING: AsciiText := Ascii("reading")
  const JUDGEMENT: AsciiText := Ascii("judgement")
  const PART_NO: AsciiText := Ascii("partNo")
  const DESCRIPTION: AsciiText := Ascii("description")
  const QUANTITY: AsciiText := Ascii("quantity")
  const SHA256: AsciiText := Ascii("sha256")
  const STAGE_ORDINAL: AsciiText := Ascii("stageOrdinal")
  const ACTION: AsciiText := Ascii("action")
  const ACTOR_ID: AsciiText := Ascii("actorId")
  const ON_BEHALF_OF_ID: AsciiText := Ascii("onBehalfOfId")
  const REASON: AsciiText := Ascii("reason")
  const ACTED_AT: AsciiText := Ascii("actedAt")
  const JOB_NUMBER: AsciiText := Ascii("jobNumber")
  const ASSET_ID: AsciiText := Ascii("assetId")
  const TEMPLATE_REVISION_ID: AsciiText := Ascii("templateRevisionId")
  const FREQUENCY: AsciiText := Ascii("frequency")
  const FORM_TEMPLATE_ID: AsciiText := Ascii("formTemplateId")
  const REVISION_CODE: AsciiText := Ascii("revisionCode")
  const SEQUENCE_ORDINAL: AsciiText := Ascii("sequenceOrdinal")
  const USER_ID: AsciiText := Ascii("userId")
  const SUBMITTED_AT: AsciiText := Ascii("submittedAt")
  const JOB: AsciiText := Ascii("job")
  const TEMPLATE_REVISION: AsciiText := Ascii("templateRevision")
  const SUBMITTER: AsciiText := Ascii("submitter")
  const ITEM_RESULTS: AsciiText := Ascii("itemResults")
  const MEASUREMENT_RESULTS: AsciiText := Ascii("measurementResults")
  const PARTS_USED: AsciiText := Ascii("partsUsed")
  const ATTACHMENTS: AsciiText := Ascii("attachments")
  const APPROVAL_STEPS: AsciiText := Ascii("approvalSteps")

  // ---------------------------------------------------------------- the record built

  lemma {:induction false} NatTextLeading(n: nat)
    ensures NoLeadingZero(NatText(n)) && (n > 0 ==> NatText(n)[0] != ZERO)
  {
    if n >= 10 {
      NatTextLeading(n / 10);
    }
  }

  lemma IntTextIsJsNumber(i: int)
    ensures IsJsNumberText(IntText(i)) && !HasE(IntText(i))
  {
    var n: nat := if i < 0 then -i else i;
    var d := Decimal(i < 0, NatText(n), []);
    NatTextLeading(n);
    assert d.whole + d.frac == NatText(n);
    MatchRender(d);
    RenderedHasNoE(d);
    assert d.Render() == IntText(i);
  }

  /** A database integer as a JavaScript number. */
  function Int(i: int): Value {
    IntTextIsJsNumber(i);
    Number(Finite(IntText(i)))
  }

  function OrNull(t: Option<Text>): Value {
    if t.Some? then Str(t.value) else Null
  }

  predicate IsReading(t: Text) {
    MatchDecimal(t).Some?
  }

  function Reading(t: Text): (v: Value)
    requires IsReading(t)
    ensures v.Exact?
  {
    CanonicalDecimalValue(t);
    Exact(CanonicalDecimal(t).value)
  }

  /** `new CanonicalDecimal(t)`; where it would throw, no canonical value. */
  function Quantity(t: Text): Value {
    if IsReading(t) then Reading(t) else Unsupported
  }

  /** An object with the given keys, in order. */
  function Keyed(ks: seq<Text>, vs: seq<Value>): (v: Value)
    requires |ks| == |vs|
    ensures v.Obj? && |v.entries| == |ks|
    ensures forall i | 0 <= i < |ks| :: v.entries[i] == Entry(ks[i], vs[i])
  {
    Obj(seq(|ks|, i requires 0 <= i < |ks| => Entry(ks[i], vs[i])))
  }

  function ItemKeys(): (ks: seq<Text>)
    ensures |ks| == 4
  {
    [ID, TEMPLATE_ITEM_ID, STATUS, REMARK]
  }

  function ItemValues(r: ItemResult): (vs: seq<Value>)
    ensures |vs| == 4
  {
    [Str(r.id), Str(r.templateItemId), Str(r.status), OrNull(r.remark)]
  }

  function ItemRecord(r: ItemResult): Value {
    Keyed(ItemKeys(), ItemValues(r))
  }

  predicate Readable(r: MeasurementResult) {
    r.readingNumeric.Some? ==> IsReading(r.readingNumeric.value)
  }

  function MeasurementKeys(): (ks: seq<Text>)
    ensures |ks| == 4
  {
    [ID, TEMPLATE_MEASUREMENT_ID, READING, JUDGEMENT]
  }

  function ReadingValue(r: MeasurementResult): Value {
    if r.readingNumeric.Some? then Quantity(r.readingNumeric.value) else OrNull(r.readingText)
  }

  function MeasurementValues(r: MeasurementResult): (vs: seq<Value>)
    ensures |vs| == 4
  {
    [Str(r.id), Str(r.templateMeasurementId), ReadingValue(r), Str(r.judgement)]
  }

  function MeasurementRecord(r: MeasurementResult): Value {
    Keyed(MeasurementKeys(), MeasurementValues(r))
  }

  function PartKeys(): (ks: seq<Text>)
    ensures |ks| == 4
  {
    [ID, PART_NO, DESCRIPTION, QUANTITY]
  }

  function PartValues(p: PartUsed): (vs: seq<Value>)
    ensures |vs| == 4
  {
    [Str(p.id), OrNull(p.partNo), Str(p.description), Quantity(p.quantity)]
  }

  function PartRecord(p: PartUsed): Value {
    Keyed(PartKeys(), PartValues(p))
  }

  function AttachmentKeys(): (ks: seq<Text>)
    ensures |ks| == 2
  {
    [ID, SHA256]
  }

  function AttachmentValues(a: Attachment): (vs: seq<Value>)
    ensures |vs| == 2
  {
    [Str(a.id), Str(a.sha256Hex)]
  }

  function AttachmentRecord(a: Attachment): Value {
    Keyed(AttachmentKeys(), AttachmentValues(a))
  }

  function StepKeys(): (ks: seq<Text>)
    ensures |ks| == 7
  {
    [ID, STAGE_ORDINAL, ACTION, ACTOR_ID, ON_BEHALF_OF_ID, REASON, ACTED_AT]
  }

  function StepValues(iso: DateFormat, s: ApprovalStep): (vs: seq<Value>)
    ensures |vs| == 7
  {
    [Str(s.id), Int(s.stageOrdinal), Str(s.action), Str(s.actorId), OrNull(s.onBehalfOfId), OrNull(s.reason),
     Timestamp(iso(s.actedAt))]
  }

  function StepRecord(iso: DateFormat, s: ApprovalStep): Value {
    Keyed(StepKeys(), StepValues(iso, s))
  }

  function HeaderKeys(): (ks: seq<Text>)
    ensures |ks| == 6
  {
    [ID, JOB_NUMBER, ASSET_ID, TEMPLATE_REVISION_ID, FREQUENCY, STATUS]
  }

  function HeaderValues(j: JobHeader): (vs: seq<Value>)
    ensures |vs| == 6
  {
    [Str(j.id), Str(j.jobNumber), Str(j.assetId), Str(j.templateRevisionId), Str(j.frequency), Str(j.status)]
  }

  function JobRecord(j: JobHeader): Value {
    Keyed(HeaderKeys(), HeaderValues(j))
  }

  function RevisionKeys(): (ks: seq<Text>)
    ensures |ks| == 4
  {
    [ID, FORM_TEMPLATE_ID, REVISION_CODE, SEQUENCE_ORDINAL]
  }

  function RevisionValues(t: TemplateRevision): (vs: seq<Value>)
    ensures |vs| == 4
  {
    [Str(t.id), Str(t.formTemplateId), Str(t.revisionCode), Int(t.sequenceOrdinal)]
  }

  function RevisionRecord(t: TemplateRevision): Value {
    Keyed(RevisionKeys(), RevisionValues(t))
  }

  function SubmitterKeys(): (ks: seq<Text>)
    ensures |ks| == 2
  {
    [USER_ID, SUBMITTED_AT]
  }

  function TimeOrNull(iso: DateFormat, t: Option<Instant>): Value {
    if t.Some? then Timestamp(iso(t.value)) else Null
  }

  function SubmitterValues(iso: DateFormat, s: Submitter): (vs: seq<Value>)
    ensures |vs| == 2
  {
    [OrNull(s.userId), TimeOrNull(iso, s.submittedAt)]
  }

  function SubmitterRecord(iso: DateFormat, s: Submitter): Value {
    Keyed(SubmitterKeys(), SubmitterValues(iso, s))
  }

  /** `byId(rows).map(render)` */
  function ById<T>(rows: seq<T>, id: T -> Text, render: T -> Value): Value {
    Arr(Map(render, SortBy(rows, id)))
  }

  function ItemId(): ItemResult -> Text { (r: ItemResult) => r.id }

  function MeasurementId(): MeasurementResult -> Text { (r: MeasurementResult) => r.id }

  function PartId(): PartUsed -> Text { (p: PartUsed) => p.id }

  function AttachmentId(): Attachment -> Text { (a: Attachment) => a.id }

  function StepId(): ApprovalStep -> Text { (s: ApprovalStep) => s.id }

  function StepRender(iso: DateFormat): ApprovalStep -> Value { (s: ApprovalStep) => StepRecord(iso, s) }

  /** Every `NUMERIC` text is a plain decimal. */
  predicate AllReadable(input: RecordInput) {
    && (forall i | 0 <= i < |input.measurementResults| :: Readable(input.measurementResults[i]))
    && (forall i | 0 <= i < |input.partsUsed| :: IsReading(input.partsUsed[i].quantity))
  }

  function TopLevelKeys(): (ks: seq<Text>)
    ensures |ks| == 8
  {
    [JOB, TEMPLATE_REVISION, SUBMITTER, ITEM_RESULTS, MEASUREMENT_RESULTS, PARTS_USED, ATTACHMENTS, APPROVAL_STEPS]
  }

  function TopLevelValues(iso: DateFormat, input: RecordInput): (vs: seq<Value>)
    ensures |vs| == 8
  {
    [JobRecord(input.job),
     RevisionRecord(input.revision),
     SubmitterRecord(iso, input.submitter),
     ById(input.itemResults, ItemId(), ItemRecord),
     ById(input.measurementResults, MeasurementId(), MeasurementRecord),
     ById(input.partsUsed, PartId(), PartRecord),
     ById(input.attachments, AttachmentId(), AttachmentRecord),
     ById(input.approvalSteps, StepId(), StepRender(iso))]
  }

  function Build(iso: DateFormat, input: RecordInput): Result<Value, BuildError> {
    if !AllReadable(input) then Err(MalformedDecimal)
    else Ok(Keyed(TopLevelKeys(), TopLevelValues(iso, input)))
  }
}

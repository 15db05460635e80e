/**
 What a reader finds in the text that is hashed for a job: under each name the column of that name, and the
 rows of each kind in the order of their ids.
 */
module RecordReading {
  import opened Wrappers
  import opened Texts
  import opened Decimals
  import opened CanonicalSerialiser
  import opened JsonText
  import opened CanonicalEquality
  import opened CanonicalReading
  import opened CanonicalJobRecord
  import opened JobRecordEquality

  // ---------------------------------------------------------------- one property

  ghost function IsTheText(nfc: Normaliser, t: Text): Json -> bool {
    (x: Json) => x == JStr(nfc(t))
  }

  ghost function IsOptional(nfc: Normaliser, t: Option<Text>): Json -> bool {
    (x: Json) => if t.Some? then x == JStr(nfc(t.value)) else x == JNull
  }

  ghost function IsInteger(i: int): Json -> bool {
    (x: Json) => x.JNum? && MatchDecimal(x.text).value.Value() == i as real
  }

  ghost function IsTime(iso: DateFormat, t: Option<Instant>): Json -> bool {
    (x: Json) => if t.Some? then x == JStr(iso(t.value)) else x == JNull
  }

  ghost function IsDecimal(raw: Text): Json -> bool {
    (x: Json) =>
      x.JNum? && MatchDecimal(raw).Some? && MatchDecimal(x.text).value.Value() == MatchDecimal(raw).value.Value()
  }

  /** The numeric reading where there is one, the text reading otherwise. */
  ghost function IsTheReading(nfc: Normaliser, numeric: Option<Text>, text: Option<Text>): Json -> bool {
    if numeric.Some? then IsDecimal(numeric.value) else IsOptional(nfc, text)
  }

  // ---------------------------------------------------------------- objects of the record

  ghost predicate HeaderSays(nfc: Normaliser, x: Json, j: JobHeader) {
    && x.JObj? && |x.fields| == 6
    && ReadsAt(x, "id", IsTheText(nfc, j.id))
    && ReadsAt(x, "jobNumber", IsTheText(nfc, j.jobNumber))
    && ReadsAt(x, "assetId", IsTheText(nfc, j.assetId))
    && ReadsAt(x, "templateRevisionId", IsTheText(nfc, j.templateRevisionId))
    && ReadsAt(x, "frequency", IsTheText(nfc, j.frequency))
    && ReadsAt(x, "status", IsTheText(nfc, j.status))
  }

  ghost predicate RevisionSays(nfc: Normaliser, x: Json, t: TemplateRevision) {
    && x.JObj? && |x.fields| == 4
    && ReadsAt(x, "id", IsTheText(nfc, t.id))
    && ReadsAt(x, "formTemplateId", IsTheText(nfc, t.formTemplateId))
    && ReadsAt(x, "revisionCode", IsTheText(nfc, t.revisionCode))
    && ReadsAt(x, "sequenceOrdinal", IsInteger(t.sequenceOrdinal))
  }

  ghost predicate SubmitterSays(nfc: Normaliser, iso: DateFormat, x: Json, s: Submitter) {
    && x.JObj? && |x.fields| == 2
    && ReadsAt(x, "userId", IsOptional(nfc, s.userId))
    && ReadsAt(x, "submittedAt", IsTime(iso, s.submittedAt))
  }

  ghost predicate ItemSays(nfc: Normaliser, x: Json, r: ItemResult) {
    && x.JObj? && |x.fields| == 4
    && ReadsAt(x, "id", IsTheText(nfc, r.id))
    && ReadsAt(x, "templateItemId", IsTheText(nfc, r.templateItemId))
    && ReadsAt(x, "status", IsTheText(nfc, r.status))
    && ReadsAt(x, "remark", IsOptional(nfc, r.remark))
  }

  ghost predicate MeasurementSays(nfc: Normaliser, x: Json, r: MeasurementResult) {
    && x.JObj? && |x.fields| == 4
    && ReadsAt(x, "id", IsTheText(nfc, r.id))
    && ReadsAt(x, "templateMeasurementId", IsTheText(nfc, r.templateMeasurementId))
    && ReadsAt(x, "reading", IsTheReading(nfc, r.readingNumeric, r.readingText))
    && ReadsAt(x, "judgement", IsTheText(nfc, r.judgement))
  }

  ghost predicate PartSays(nfc: Normaliser, x: Json, p: PartUsed) {
    && x.JObj? && |x.fields| == 4
    && ReadsAt(x, "id", IsTheText(nfc, p.id))
    && ReadsAt(x, "partNo", IsOptional(nfc, p.partNo))
    && ReadsAt(x, "description", IsTheText(nfc, p.description))
    && ReadsAt(x, "quantity", IsDecimal(p.quantity))
  }

  ghost predicate AttachmentSays(nfc: Normaliser, x: Json, a: Attachment) {
    && x.JObj? && |x.fields| == 2
    && ReadsAt(x, "id", IsTheText(nfc, a.id))
    && ReadsAt(x, "sha256", IsTheText(nfc, a.sha256Hex))
  }

  ghost predicate StepSays(nfc: Normaliser, iso: DateFormat, x: Json, s: ApprovalStep) {
    && x.JObj? && |x.fields| == 7
    && ReadsAt(x, "id", IsTheText(nfc, s.id))
    && ReadsAt(x, "stageOrdinal", IsInteger(s.stageOrdinal))
    && ReadsAt(x, "action", IsTheText(nfc, s.action))
    && ReadsAt(x, "actorId", IsTheText(nfc, s.actorId))
    && ReadsAt(x, "onBehalfOfId", IsOptional(nfc, s.onBehalfOfId))
    && ReadsAt(x, "reason", IsOptional(nfc, s.reason))
    && ReadsAt(x, "actedAt", IsTime(iso, Some(s.actedAt)))
  }

  // ---------------------------------------------------------------- lists of rows

  /** One element for each row, in the order of the rows' ids. */
  ghost predicate RowsSay<T(!new)>(x: Json, rows: seq<T>, id: T -> Text, says: (Json, T) -> bool) {
    x.JArr? && exists sorted: seq<T> :: IsSorted(sorted, rows, id) && AllSay(x.elems, sorted, says)
  }

  ghost predicate IsSorted<T>(sorted: seq<T>, rows: seq<T>, id: T -> Text) {
    && multiset(sorted) == multiset(rows)
    && forall i, k | 0 <= i < k < |sorted| :: NoLater(id(sorted[i]), id(sorted[k]))
  }

  ghost predicate AllSay<T>(xs: seq<Json>, rows: seq<T>, says: (Json, T) -> bool) {
    |xs| == |rows| && forall i | 0 <= i < |xs| :: says(xs[i], rows[i])
  }

  ghost function IsHeader(nfc: Normaliser, j: JobHeader): Json -> bool {
    (x: Json) => HeaderSays(nfc, x, j)
  }

  ghost function IsRevision(nfc: Normaliser, t: TemplateRevision): Json -> bool {
    (x: Json) => RevisionSays(nfc, x, t)
  }

  ghost function IsSubmitter(nfc: Normaliser, iso: DateFormat, s: Submitter): Json -> bool {
    (x: Json) => SubmitterSays(nfc, iso, x, s)
  }

  ghost function AreItems(nfc: Normaliser, rows: seq<ItemResult>): Json -> bool {
    (x: Json) => RowsSay(x, rows, (r: ItemResult) => r.id, (e: Json, r: ItemResult) => ItemSays(nfc, e, r))
  }

  ghost function AreMeasurements(nfc: Normaliser, rows: seq<MeasurementResult>): Json -> bool {
    (x: Json) =>
      RowsSay(x, rows, (r: MeasurementResult) => r.id, (e: Json, r: MeasurementResult) => MeasurementSays(nfc, e, r))
  }

  ghost function AreParts(nfc: Normaliser, rows: seq<PartUsed>): Json -> bool {
    (x: Json) => RowsSay(x, rows, (p: PartUsed) => p.id, (e: Json, p: PartUsed) => PartSays(nfc, e, p))
  }

  ghost function AreAttachments(nfc: Normaliser, rows: seq<Attachment>): Json -> bool {
    (x: Json) => RowsSay(x, rows, (a: Attachment) => a.id, (e: Json, a: Attachment) => AttachmentSays(nfc, e, a))
  }

  ghost function AreSteps(nfc: Normaliser, iso: DateFormat, rows: seq<ApprovalStep>): Json -> bool {
    (x: Json) => RowsSay(x, rows, (s: ApprovalStep) => s.id, (e: Json, s: ApprovalStep) => StepSays(nfc, iso, e, s))
  }

  /** The document says, under each name, what the input holds. */
  ghost predicate RecordSays(nfc: Normaliser, iso: DateFormat, x: Json, input: RecordInput) {
    && x.JObj? && |x.fields| == 8
    && ReadsAt(x, "job", IsHeader(nfc, input.job))
    && ReadsAt(x, "templateRevision", IsRevision(nfc, input.revision))
    && ReadsAt(x, "submitter", IsSubmitter(nfc, iso, input.submitter))
    && ReadsAt(x, "itemResults", AreItems(nfc, input.itemResults))
    && ReadsAt(x, "measurementResults", AreMeasurements(nfc, input.measurementResults))
    && ReadsAt(x, "partsUsed", AreParts(nfc, input.partsUsed))
    && ReadsAt(x, "attachments", AreAttachments(nfc, input.attachments))
    && ReadsAt(x, "approvalSteps", AreSteps(nfc, iso, input.approvalSteps))
  }

  // ---------------------------------------------------------------- reading an object by its names

  lemma KeyedReads(nfc: Normaliser, ks: seq<Text>, vs: seq<Value>, x: Json, k: nat, name: string)
    requires |ks| == |vs| && PlainKeys(ks) && AllHashable(nfc, vs) && k < |ks| && IsNamed(ks[k], name)
    requires Says(nfc, Keyed(ks, vs), x)
    ensures ReadsAt(x, name, Saying(nfc, vs[k]))
  {
    var es := Keyed(ks, vs).entries;
    forall i | 0 <= i < |es| ensures es[i] == Entry(ks[i], vs[i]) && !es[i].value.Undefined? {
      assert HashableValue(nfc, vs[i]);
    }
    EntryReads(nfc, es, x, k, name);
  }

  lemma KeyedCount(nfc: Normaliser, ks: seq<Text>, vs: seq<Value>, x: Json)
    requires |ks| == |vs| && AllHashable(nfc, vs) && Says(nfc, Keyed(ks, vs), x)
    ensures x.JObj? && |x.fields| == |ks|
  {
    var es := Keyed(ks, vs).entries;
    forall i | 0 <= i < |es| ensures !es[i].value.Undefined? {
      assert es[i] == Entry(ks[i], vs[i]) && HashableValue(nfc, vs[i]);
    }
    AllLive(es);
  }

  lemma ReadsBetter(x: Json, name: string, good: Json -> bool, better: Json -> bool)
    requires ReadsAt(x, name, good) && forall e :: good(e) ==> better(e)
    ensures ReadsAt(x, name, better)
  {
  }

  // ---------------------------------------------------------------- leaves

  lemma WholeValue(neg: bool, whole: Text, n: nat)
    requires whole != [] && AllDigits(whole) && Nat(whole) == n
    ensures Decimal(neg, whole, []).Valid()
    ensures Decimal(neg, whole, []).Value() == if neg then -(n as real) else n as real
  {
    assert whole + [] == whole;
  }

  lemma IntValue(i: int)
    ensures IsNumeric(Int(i)) && NumericValue(Int(i)) == i as real
  {
    var n: nat := if i < 0 then -i else i;
    var d := Decimal(i < 0, NatText(n), []);
    WholeValue(i < 0, NatText(n), n);
    MatchRender(d);
    IntTextRenders(i, d);
    IntTextIsJsNumber(i);
  }

  lemma IntTextRenders(i: int, d: Decimal)
    requires d == Decimal(i < 0, NatText(if i < 0 then -i else i), [])
    ensures d.Render() == IntText(i)
  {
  }

  lemma IntegerReads(nfc: Normaliser, i: int, x: Json)
    requires Says(nfc, Int(i), x)
    ensures IsInteger(i)(x)
  {
    IntValue(i);
  }

  lemma QuantityReads(nfc: Normaliser, raw: Text, x: Json)
    requires IsReading(raw) && Says(nfc, Quantity(raw), x)
    ensures IsDecimal(raw)(x)
  {
    CanonicalDecimalValue(raw);
  }

  /** The document says what the object with these keys and values says. */
  ghost predicate SaysKeyed(nfc: Normaliser, ks: seq<Text>, vs: seq<Value>, x: Json) {
    |ks| == |vs| && PlainKeys(ks) && AllHashable(nfc, vs) && Says(nfc, Keyed(ks, vs), x)
  }

  lemma TextAt(nfc: Normaliser, ks: seq<Text>, vs: seq<Value>, x: Json, k: nat, name: string, t: Text)
    requires SaysKeyed(nfc, ks, vs, x) && k < |ks| && IsNamed(ks[k], name) && vs[k] == Str(t)
    ensures ReadsAt(x, name, IsTheText(nfc, t))
  {
    KeyedReads(nfc, ks, vs, x, k, name);
    ReadsBetter(x, name, Saying(nfc, vs[k]), IsTheText(nfc, t));
  }

  lemma OptionalAt(nfc: Normaliser, ks: seq<Text>, vs: seq<Value>, x: Json, k: nat, name: string, t: Option<Text>)
    requires SaysKeyed(nfc, ks, vs, x) && k < |ks| && IsNamed(ks[k], name) && vs[k] == OrNull(t)
    ensures ReadsAt(x, name, IsOptional(nfc, t))
  {
    KeyedReads(nfc, ks, vs, x, k, name);
    ReadsBetter(x, name, Saying(nfc, vs[k]), IsOptional(nfc, t));
  }

  lemma IntegerAt(nfc: Normaliser, ks: seq<Text>, vs: seq<Value>, x: Json, k: nat, name: string, i: int)
    requires SaysKeyed(nfc, ks, vs, x) && k < |ks| && IsNamed(ks[k], name) && vs[k] == Int(i)
    ensures ReadsAt(x, name, IsInteger(i))
  {
    KeyedReads(nfc, ks, vs, x, k, name);
    forall e | Says(nfc, vs[k], e) ensures IsInteger(i)(e) {
      IntegerReads(nfc, i, e);
    }
    ReadsBetter(x, name, Saying(nfc, vs[k]), IsInteger(i));
  }

  lemma TimeAt(nfc: Normaliser, iso: DateFormat, ks: seq<Text>, vs: seq<Value>, x: Json, k: nat, name: string,
               t: Option<Instant>)
    requires SaysKeyed(nfc, ks, vs, x) && k < |ks| && IsNamed(ks[k], name) && vs[k] == TimeOrNull(iso, t)
    ensures ReadsAt(x, name, IsTime(iso, t))
  {
    KeyedReads(nfc, ks, vs, x, k, name);
    ReadsBetter(x, name, Saying(nfc, vs[k]), IsTime(iso, t));
  }

  lemma DecimalAt(nfc: Normaliser, ks: seq<Text>, vs: seq<Value>, x: Json, k: nat, name: string, raw: Text)
    requires SaysKeyed(nfc, ks, vs, x) && k < |ks| && IsNamed(ks[k], name)
    requires IsReading(raw) && vs[k] == Quantity(raw)
    ensures ReadsAt(x, name, IsDecimal(raw))
  {
    KeyedReads(nfc, ks, vs, x, k, name);
    forall e | Says(nfc, vs[k], e) ensures IsDecimal(raw)(e) {
      QuantityReads(nfc, raw, e);
    }
    ReadsBetter(x, name, Saying(nfc, vs[k]), IsDecimal(raw));
  }

  lemma ReadingAt(nfc: Normaliser, ks: seq<Text>, vs: seq<Value>, x: Json, k: nat, name: string, r: MeasurementResult)
    requires SaysKeyed(nfc, ks, vs, x) && k < |ks| && IsNamed(ks[k], name)
    requires Readable(r) && vs[k] == ReadingValue(r)
    ensures ReadsAt(x, name, IsTheReading(nfc, r.readingNumeric, r.readingText))
  {
    if r.readingNumeric.Some? {
      DecimalAt(nfc, ks, vs, x, k, name, r.readingNumeric.value);
    } else {
      OptionalAt(nfc, ks, vs, x, k, name, r.readingText);
    }
  }

  // ---------------------------------------------------------------- objects

  lemma HeaderValuesHashable(nfc: Normaliser, j: JobHeader)
    ensures AllHashable(nfc, HeaderValues(j))
  {
  }

  lemma HeaderKeyed(nfc: Normaliser, j: JobHeader, x: Json)
    requires Says(nfc, JobRecord(j), x)
    ensures SaysKeyed(nfc, HeaderKeys(), HeaderValues(j), x) && x.JObj? && |x.fields| == 6
  {
    JobNames();
    HeaderValuesHashable(nfc, j);
    KeyedCount(nfc, HeaderKeys(), HeaderValues(j), x);
  }

  lemma HeaderReads(nfc: Normaliser, j: JobHeader, x: Json)
    requires Says(nfc, JobRecord(j), x)
    ensures HeaderSays(nfc, x, j)
  {
    var ks, vs := HeaderKeys(), HeaderValues(j);
    HeaderKeyed(nfc, j, x);
    TextAt(nfc, ks, vs, x, 0, "id", j.id);
    TextAt(nfc, ks, vs, x, 1, "jobNumber", j.jobNumber);
    TextAt(nfc, ks, vs, x, 2, "assetId", j.assetId);
    TextAt(nfc, ks, vs, x, 3, "templateRevisionId", j.templateRevisionId);
    TextAt(nfc, ks, vs, x, 4, "frequency", j.frequency);
    TextAt(nfc, ks, vs, x, 5, "status", j.status);
  }

  lemma RevisionValuesHashable(nfc: Normaliser, t: TemplateRevision)
    ensures AllHashable(nfc, RevisionValues(t))
  {
  }

  lemma RevisionKeyed(nfc: Normaliser, t: TemplateRevision, x: Json)
    requires Says(nfc, RevisionRecord(t), x)
    ensures SaysKeyed(nfc, RevisionKeys(), RevisionValues(t), x) && x.JObj? && |x.fields| == 4
  {
    JobNames();
    RevisionValuesHashable(nfc, t);
    KeyedCount(nfc, RevisionKeys(), RevisionValues(t), x);
  }

  lemma RevisionReads(nfc: Normaliser, t: TemplateRevision, x: Json)
    requires Says(nfc, RevisionRecord(t), x)
    ensures RevisionSays(nfc, x, t)
  {
    var ks, vs := RevisionKeys(), RevisionValues(t);
    RevisionKeyed(nfc, t, x);
    TextAt(nfc, ks, vs, x, 0, "id", t.id);
    TextAt(nfc, ks, vs, x, 1, "formTemplateId", t.formTemplateId);
    TextAt(nfc, ks, vs, x, 2, "revisionCode", t.revisionCode);
    IntegerAt(nfc, ks, vs, x, 3, "sequenceOrdinal", t.sequenceOrdinal);
  }

  lemma SubmitterValuesHashable(nfc: Normaliser, iso: DateFormat, s: Submitter)
    ensures AllHashable(nfc, SubmitterValues(iso, s))
  {
  }

  lemma SubmitterKeyed(nfc: Normaliser, iso: DateFormat, s: Submitter, x: Json)
    requires Says(nfc, SubmitterRecord(iso, s), x)
    ensures SaysKeyed(nfc, SubmitterKeys(), SubmitterValues(iso, s), x) && x.JObj? && |x.fields| == 2
  {
    JobNames();
    SubmitterValuesHashable(nfc, iso, s);
    KeyedCount(nfc, SubmitterKeys(), SubmitterValues(iso, s), x);
  }

  lemma SubmitterReads(nfc: Normaliser, iso: DateFormat, s: Submitter, x: Json)
    requires Says(nfc, SubmitterRecord(iso, s), x)
    ensures SubmitterSays(nfc, iso, x, s)
  {
    var ks, vs := SubmitterKeys(), SubmitterValues(iso, s);
    SubmitterKeyed(nfc, iso, s, x);
    OptionalAt(nfc, ks, vs, x, 0, "userId", s.userId);
    TimeAt(nfc, iso, ks, vs, x, 1, "submittedAt", s.submittedAt);
  }

  lemma ItemValuesHashable(nfc: Normaliser, r: ItemResult)
    ensures AllHashable(nfc, ItemValues(r))
  {
  }

  lemma ItemKeyed(nfc: Normaliser, r: ItemResult, x: Json)
    requires Says(nfc, ItemRecord(r), x)
    ensures SaysKeyed(nfc, ItemKeys(), ItemValues(r), x) && x.JObj? && |x.fields| == 4
  {
    RowNames();
    ItemValuesHashable(nfc, r);
    KeyedCount(nfc, ItemKeys(), ItemValues(r), x);
  }

  lemma ItemReads(nfc: Normaliser, r: ItemResult, x: Json)
    requires Says(nfc, ItemRecord(r), x)
    ensures ItemSays(nfc, x, r)
  {
    var ks, vs := ItemKeys(), ItemValues(r);
    ItemKeyed(nfc, r, x);
    TextAt(nfc, ks, vs, x, 0, "id", r.id);
    TextAt(nfc, ks, vs, x, 1, "templateItemId", r.templateItemId);
    TextAt(nfc, ks, vs, x, 2, "status", r.status);
    OptionalAt(nfc, ks, vs, x, 3, "remark", r.remark);
  }

  lemma MeasurementValuesHashable(nfc: Normaliser, r: MeasurementResult)
    requires Readable(r)
    ensures AllHashable(nfc, MeasurementValues(r))
  {
  }

  lemma MeasurementKeyed(nfc: Normaliser, r: MeasurementResult, x: Json)
    requires Readable(r) && Says(nfc, MeasurementRecord(r), x)
    ensures SaysKeyed(nfc, MeasurementKeys(), MeasurementValues(r), x) && x.JObj? && |x.fields| == 4
  {
    RowNames();
    MeasurementValuesHashable(nfc, r);
    KeyedCount(nfc, MeasurementKeys(), MeasurementValues(r), x);
  }

  lemma MeasurementReads(nfc: Normaliser, r: MeasurementResult, x: Json)
    requires Readable(r) && Says(nfc, MeasurementRecord(r), x)
    ensures MeasurementSays(nfc, x, r)
  {
    var ks, vs := MeasurementKeys(), MeasurementValues(r);
    MeasurementKeyed(nfc, r, x);
    TextAt(nfc, ks, vs, x, 0, "id", r.id);
    TextAt(nfc, ks, vs, x, 1, "templateMeasurementId", r.templateMeasurementId);
    ReadingAt(nfc, ks, vs, x, 2, "reading", r);
    TextAt(nfc, ks, vs, x, 3, "judgement", r.judgement);
  }

  lemma FourHashable(nfc: Normaliser, v0: Value, v1: Value, v2: Value, v3: Value)
    requires HashableValue(nfc, v0) && HashableValue(nfc, v1) && HashableValue(nfc, v2) && HashableValue(nfc, v3)
    ensures AllHashable(nfc, [v0, v1, v2, v3])
  {
  }

  lemma PartValuesHashable(nfc: Normaliser, p: PartUsed)
    requires IsReading(p.quantity)
    ensures AllHashable(nfc, PartValues(p))
  {
    QuantityHashable(nfc, p.quantity);
    FourHashable(nfc, Str(p.id), OrNull(p.partNo), Str(p.description), Quantity(p.quantity));
  }

  lemma PartKeyed(nfc: Normaliser, p: PartUsed, x: Json)
    requires IsReading(p.quantity) && Says(nfc, PartRecord(p), x)
    ensures SaysKeyed(nfc, PartKeys(), PartValues(p), x) && x.JObj? && |x.fields| == 4
  {
    RowNames();
    PartValuesHashable(nfc, p);
    KeyedCount(nfc, PartKeys(), PartValues(p), x);
  }

  lemma PartReads(nfc: Normaliser, p: PartUsed, x: Json)
    requires IsReading(p.quantity) && Says(nfc, PartRecord(p), x)
    ensures PartSays(nfc, x, p)
  {
    var ks, vs := PartKeys(), PartValues(p);
    PartKeyed(nfc, p, x);
    TextAt(nfc, ks, vs, x, 0, "id", p.id);
    OptionalAt(nfc, ks, vs, x, 1, "partNo", p.partNo);
    TextAt(nfc, ks, vs, x, 2, "description", p.description);
    DecimalAt(nfc, ks, vs, x, 3, "quantity", p.quantity);
  }

  lemma AttachmentValuesHashable(nfc: Normaliser, a: Attachment)
    ensures AllHashable(nfc, AttachmentValues(a))
  {
  }

  lemma AttachmentKeyed(nfc: Normaliser, a: Attachment, x: Json)
    requires Says(nfc, AttachmentRecord(a), x)
    ensures SaysKeyed(nfc, AttachmentKeys(), AttachmentValues(a), x) && x.JObj? && |x.fields| == 2
  {
    RowNames();
    AttachmentValuesHashable(nfc, a);
    KeyedCount(nfc, AttachmentKeys(), AttachmentValues(a), x);
  }

  lemma AttachmentReads(nfc: Normaliser, a: Attachment, x: Json)
    requires Says(nfc, AttachmentRecord(a), x)
    ensures AttachmentSays(nfc, x, a)
  {
    var ks, vs := AttachmentKeys(), AttachmentValues(a);
    AttachmentKeyed(nfc, a, x);
    TextAt(nfc, ks, vs, x, 0, "id", a.id);
    TextAt(nfc, ks, vs, x, 1, "sha256", a.sha256Hex);
  }

  lemma StepValuesHashable(nfc: Normaliser, iso: DateFormat, s: ApprovalStep)
    ensures AllHashable(nfc, StepValues(iso, s))
  {
  }

  lemma StepKeyed(nfc: Normaliser, iso: DateFormat, s: ApprovalStep, x: Json)
    requires Says(nfc, StepRecord(iso, s), x)
    ensures SaysKeyed(nfc, StepKeys(), StepValues(iso, s), x) && x.JObj? && |x.fields| == 7
  {
    StepNames();
    StepValuesHashable(nfc, iso, s);
    KeyedCount(nfc, StepKeys(), StepValues(iso, s), x);
  }

  /** A column under its name, with its value at hand. */
  ghost predicate StepColumn(iso: DateFormat, s: ApprovalStep, k: nat, name: string, v: Value) {
    k < 7 && IsNamed(StepKeys()[k], name) && StepValues(iso, s)[k] == v
  }

  lemma StepNamesSpelled()
    ensures IsNamed(ID, "id") && IsNamed(STAGE_ORDINAL, "stageOrdinal") && IsNamed(ACTION, "action")
    ensures IsNamed(ACTOR_ID, "actorId")
  {
  }

  lemma OtherStepNamesSpelled()
    ensures IsNamed(ON_BEHALF_OF_ID, "onBehalfOfId") && IsNamed(REASON, "reason") && IsNamed(ACTED_AT, "actedAt")
  {
  }

  lemma StepColumnIs(iso: DateFormat, s: ApprovalStep, k: nat, key: Text, name: string, v: Value)
    requires k < 7 && StepKeys()[k] == key && IsNamed(key, name) && StepValues(iso, s)[k] == v
    ensures StepColumn(iso, s, k, name, v)
  {
  }

  lemma StepColumns(iso: DateFormat, s: ApprovalStep)
    ensures StepColumn(iso, s, 0, "id", Str(s.id))
    ensures StepColumn(iso, s, 1, "stageOrdinal", Int(s.stageOrdinal))
    ensures StepColumn(iso, s, 2, "action", Str(s.action))
    ensures StepColumn(iso, s, 3, "actorId", Str(s.actorId))
  {
    StepNamesSpelled();
    StepColumnIs(iso, s, 0, ID, "id", Str(s.id));
    StepColumnIs(iso, s, 1, STAGE_ORDINAL, "stageOrdinal", Int(s.stageOrdinal));
    StepColumnIs(iso, s, 2, ACTION, "action", Str(s.action));
    StepColumnIs(iso, s, 3, ACTOR_ID, "actorId", Str(s.actorId));
  }

  lemma OtherStepColumns(iso: DateFormat, s: ApprovalStep)
    ensures StepColumn(iso, s, 4, "onBehalfOfId", OrNull(s.onBehalfOfId))
    ensures StepColumn(iso, s, 5, "reason", OrNull(s.reason))
    ensures StepColumn(iso, s, 6, "actedAt", TimeOrNull(iso, Some(s.actedAt)))
  {
    OtherStepNamesSpelled();
    StepColumnIs(iso, s, 4, ON_BEHALF_OF_ID, "onBehalfOfId", OrNull(s.onBehalfOfId));
    StepColumnIs(iso, s, 5, REASON, "reason", OrNull(s.reason));
    StepColumnIs(iso, s, 6, ACTED_AT, "actedAt", TimeOrNull(iso, Some(s.actedAt)));
  }

  lemma WhoReads(nfc: Normaliser, iso: DateFormat, s: ApprovalStep, x: Json)
    requires SaysKeyed(nfc, StepKeys(), StepValues(iso, s), x)
    ensures ReadsAt(x, "id", IsTheText(nfc, s.id)) && ReadsAt(x, "actorId", IsTheText(nfc, s.actorId))
    ensures ReadsAt(x, "onBehalfOfId", IsOptional(nfc, s.onBehalfOfId))
  {
    var ks, vs := StepKeys(), StepValues(iso, s);
    StepColumns(iso, s);
    OtherStepColumns(iso, s);
    TextAt(nfc, ks, vs, x, 0, "id", s.id);
    TextAt(nfc, ks, vs, x, 3, "actorId", s.actorId);
    OptionalAt(nfc, ks, vs, x, 4, "onBehalfOfId", s.onBehalfOfId);
  }

  lemma WhatReads(nfc: Normaliser, iso: DateFormat, s: ApprovalStep, x: Json)
    requires SaysKeyed(nfc, StepKeys(), StepValues(iso, s), x)
    ensures ReadsAt(x, "stageOrdinal", IsInteger(s.stageOrdinal)) && ReadsAt(x, "action", IsTheText(nfc, s.action))
    ensures ReadsAt(x, "reason", IsOptional(nfc, s.reason)) && ReadsAt(x, "actedAt", IsTime(iso, Some(s.actedAt)))
  {
    var ks, vs := StepKeys(), StepValues(iso, s);
    StepColumns(iso, s);
    OtherStepColumns(iso, s);
    IntegerAt(nfc, ks, vs, x, 1, "stageOrdinal", s.stageOrdinal);
    TextAt(nfc, ks, vs, x, 2, "action", s.action);
    OptionalAt(nfc, ks, vs, x, 5, "reason", s.reason);
    TimeAt(nfc, iso, ks, vs, x, 6, "actedAt", Some(s.actedAt));
  }

  lemma StepReads(nfc: Normaliser, iso: DateFormat, s: ApprovalStep, x: Json)
    requires Says(nfc, StepRecord(iso, s), x)
    ensures StepSays(nfc, iso, x, s)
  {
    StepKeyed(nfc, iso, s, x);
    WhoReads(nfc, iso, s, x);
    WhatReads(nfc, iso, s, x);
  }

  // ---------------------------------------------------------------- lists

  lemma RowsRead<T(!new)>(
    nfc: Normaliser, rows: seq<T>, id: T -> Text, render: T -> Value, key: T -> Text, says: (Json, T) -> bool, x: Json)
    requires Says(nfc, ById(rows, id, render), x) && forall r :: id(r) == key(r)
    requires forall r, e | r in rows && Says(nfc, render(r), e) :: says(e, r)
    ensures RowsSay(x, rows, key, says)
  {
    var sorted := SortBy(rows, id);
    SortPermutes(rows, id);
    SortMembers(rows, id);
    SortedInOrder(rows, id);
    forall i | 0 <= i < |sorted| ensures says(x.elems[i], sorted[i]) {
      assert Map(render, sorted)[i] == render(sorted[i]);
    }
    forall i, k | 0 <= i < k < |sorted| ensures NoLater(key(sorted[i]), key(sorted[k])) {
      assert NoLater(id(sorted[i]), id(sorted[k]));
    }
    assert IsSorted(sorted, rows, key) && AllSay(x.elems, sorted, says);
  }

  lemma ItemsRead(nfc: Normaliser, rows: seq<ItemResult>, x: Json)
    requires Says(nfc, ById(rows, ItemId(), ItemRecord), x)
    ensures AreItems(nfc, rows)(x)
  {
    forall r: ItemResult, e | Says(nfc, ItemRecord(r), e) ensures ItemSays(nfc, e, r) {
      ItemReads(nfc, r, e);
    }
    RowsRead(nfc, rows, ItemId(), ItemRecord, (r: ItemResult) => r.id,
             (e: Json, r: ItemResult) => ItemSays(nfc, e, r), x);
  }

  lemma MeasurementsRead(nfc: Normaliser, rows: seq<MeasurementResult>, x: Json)
    requires forall i | 0 <= i < |rows| :: Readable(rows[i])
    requires Says(nfc, ById(rows, MeasurementId(), MeasurementRecord), x)
    ensures AreMeasurements(nfc, rows)(x)
  {
    forall r: MeasurementResult, e | Readable(r) && Says(nfc, MeasurementRecord(r), e)
      ensures MeasurementSays(nfc, e, r)
    {
      MeasurementReads(nfc, r, e);
    }
    RowsRead(nfc, rows, MeasurementId(), MeasurementRecord, (r: MeasurementResult) => r.id,
             (e: Json, r: MeasurementResult) => MeasurementSays(nfc, e, r), x);
  }

  lemma PartsRead(nfc: Normaliser, rows: seq<PartUsed>, x: Json)
    requires forall i | 0 <= i < |rows| :: IsReading(rows[i].quantity)
    requires Says(nfc, ById(rows, PartId(), PartRecord), x)
    ensures AreParts(nfc, rows)(x)
  {
    forall p: PartUsed, e | IsReading(p.quantity) && Says(nfc, PartRecord(p), e) ensures PartSays(nfc, e, p) {
      PartReads(nfc, p, e);
    }
    RowsRead(nfc, rows, PartId(), PartRecord, (p: PartUsed) => p.id, (e: Json, p: PartUsed) => PartSays(nfc, e, p), x);
  }

  lemma AttachmentsRead(nfc: Normaliser, rows: seq<Attachment>, x: Json)
    requires Says(nfc, ById(rows, AttachmentId(), AttachmentRecord), x)
    ensures AreAttachments(nfc, rows)(x)
  {
    forall a: Attachment, e | Says(nfc, AttachmentRecord(a), e) ensures AttachmentSays(nfc, e, a) {
      AttachmentReads(nfc, a, e);
    }
    RowsRead(nfc, rows, AttachmentId(), AttachmentRecord, (a: Attachment) => a.id,
             (e: Json, a: Attachment) => AttachmentSays(nfc, e, a), x);
  }

  lemma StepsRead(nfc: Normaliser, iso: DateFormat, rows: seq<ApprovalStep>, x: Json)
    requires Says(nfc, ById(rows, StepId(), StepRender(iso)), x)
    ensures AreSteps(nfc, iso, rows)(x)
  {
    forall s: ApprovalStep, e | Says(nfc, StepRender(iso)(s), e) ensures StepSays(nfc, iso, e, s) {
      StepReads(nfc, iso, s, e);
    }
    RowsRead(nfc, rows, StepId(), StepRender(iso), (s: ApprovalStep) => s.id,
             (e: Json, s: ApprovalStep) => StepSays(nfc, iso, e, s), x);
  }

  // ---------------------------------------------------------------- the record

  lemma TopLevelReads(nfc: Normaliser, iso: DateFormat, input: RecordInput, x: Json, k: nat, name: string)
    requires AllReadable(input) && Says(nfc, Build(iso, input).value, x)
    requires k < 8 && IsNamed(TopLevelKeys()[k], name)
    ensures ReadsAt(x, name, Saying(nfc, TopLevelValues(iso, input)[k]))
  {
    TopLevelHashable(nfc, iso, input);
    TopLevelNames();
    KeyedReads(nfc, TopLevelKeys(), TopLevelValues(iso, input), x, k, name);
  }

  lemma TopLevelCount(nfc: Normaliser, iso: DateFormat, input: RecordInput, x: Json)
    requires AllReadable(input) && Says(nfc, Build(iso, input).value, x)
    ensures x.JObj? && |x.fields| == 8
  {
    TopLevelHashable(nfc, iso, input);
    KeyedCount(nfc, TopLevelKeys(), TopLevelValues(iso, input), x);
  }

  lemma HeaderAt(nfc: Normaliser, iso: DateFormat, input: RecordInput, x: Json)
    requires AllReadable(input) && Says(nfc, Build(iso, input).value, x)
    ensures ReadsAt(x, "job", IsHeader(nfc, input.job))
  {
    var v := TopLevelValues(iso, input)[0];
    TopLevelReads(nfc, iso, input, x, 0, "job");
    forall e | Says(nfc, v, e) ensures IsHeader(nfc, input.job)(e) {
      HeaderReads(nfc, input.job, e);
    }
    ReadsBetter(x, "job", Saying(nfc, v), IsHeader(nfc, input.job));
  }

  lemma RevisionAt(nfc: Normaliser, iso: DateFormat, input: RecordInput, x: Json)
    requires AllReadable(input) && Says(nfc, Build(iso, input).value, x)
    ensures ReadsAt(x, "templateRevision", IsRevision(nfc, input.revision))
  {
    var v := TopLevelValues(iso, input)[1];
    TopLevelReads(nfc, iso, input, x, 1, "templateRevision");
    forall e | Says(nfc, v, e) ensures IsRevision(nfc, input.revision)(e) {
      RevisionReads(nfc, input.revision, e);
    }
    ReadsBetter(x, "templateRevision", Saying(nfc, v), IsRevision(nfc, input.revision));
  }

  lemma SubmitterAt(nfc: Normaliser, iso: DateFormat, input: RecordInput, x: Json)
    requires AllReadable(input) && Says(nfc, Build(iso, input).value, x)
    ensures ReadsAt(x, "submitter", IsSubmitter(nfc, iso, input.submitter))
  {
    var v := TopLevelValues(iso, input)[2];
    TopLevelReads(nfc, iso, input, x, 2, "submitter");
    forall e | Says(nfc, v, e) ensures IsSubmitter(nfc, iso, input.submitter)(e) {
      SubmitterReads(nfc, iso, input.submitter, e);
    }
    ReadsBetter(x, "submitter", Saying(nfc, v), IsSubmitter(nfc, iso, input.submitter));
  }

  lemma ItemsAt(nfc: Normaliser, iso: DateFormat, input: RecordInput, x: Json)
    requires AllReadable(input) && Says(nfc, Build(iso, input).value, x)
    ensures ReadsAt(x, "itemResults", AreItems(nfc, input.itemResults))
  {
    var v := TopLevelValues(iso, input)[3];
    TopLevelReads(nfc, iso, input, x, 3, "itemResults");
    forall e | Says(nfc, v, e) ensures AreItems(nfc, input.itemResults)(e) {
      ItemsRead(nfc, input.itemResults, e);
    }
    ReadsBetter(x, "itemResults", Saying(nfc, v), AreItems(nfc, input.itemResults));
  }

  lemma MeasurementsAt(nfc: Normaliser, iso: DateFormat, input: RecordInput, x: Json)
    requires AllReadable(input) && Says(nfc, Build(iso, input).value, x)
    ensures ReadsAt(x, "measurementResults", AreMeasurements(nfc, input.measurementResults))
  {
    var v := TopLevelValues(iso, input)[4];
    TopLevelReads(nfc, iso, input, x, 4, "measurementResults");
    forall e | Says(nfc, v, e) ensures AreMeasurements(nfc, input.measurementResults)(e) {
      MeasurementsRead(nfc, input.measurementResults, e);
    }
    ReadsBetter(x, "measurementResults", Saying(nfc, v), AreMeasurements(nfc, input.measurementResults));
  }

  lemma PartsAt(nfc: Normaliser, iso: DateFormat, input: RecordInput, x: Json)
    requires AllReadable(input) && Says(nfc, Build(iso, input).value, x)
    ensures ReadsAt(x, "partsUsed", AreParts(nfc, input.partsUsed))
  {
    var v := TopLevelValues(iso, input)[5];
    TopLevelReads(nfc, iso, input, x, 5, "partsUsed");
    forall e | Says(nfc, v, e) ensures AreParts(nfc, input.partsUsed)(e) {
      PartsRead(nfc, input.partsUsed, e);
    }
    ReadsBetter(x, "partsUsed", Saying(nfc, v), AreParts(nfc, input.partsUsed));
  }

  lemma AttachmentsAt(nfc: Normaliser, iso: DateFormat, input: RecordInput, x: Json)
    requires AllReadable(input) && Says(nfc, Build(iso, input).value, x)
    ensures ReadsAt(x, "attachments", AreAttachments(nfc, input.attachments))
  {
    var v := TopLevelValues(iso, input)[6];
    TopLevelReads(nfc, iso, input, x, 6, "attachments");
    forall e | Says(nfc, v, e) ensures AreAttachments(nfc, input.attachments)(e) {
      AttachmentsRead(nfc, input.attachments, e);
    }
    ReadsBetter(x, "attachments", Saying(nfc, v), AreAttachments(nfc, input.attachments));
  }

  lemma StepsAt(nfc: Normaliser, iso: DateFormat, input: RecordInput, x: Json)
    requires AllReadable(input) && Says(nfc, Build(iso, input).value, x)
    ensures ReadsAt(x, "approvalSteps", AreSteps(nfc, iso, input.approvalSteps))
  {
    var v := TopLevelValues(iso, input)[7];
    TopLevelReads(nfc, iso, input, x, 7, "approvalSteps");
    forall e | Says(nfc, v, e) ensures AreSteps(nfc, iso, input.approvalSteps)(e) {
      StepsRead(nfc, iso, input.approvalSteps, e);
    }
    ReadsBetter(x, "approvalSteps", Saying(nfc, v), AreSteps(nfc, iso, input.approvalSteps));
  }

  /** A reader of the text finds under each name the column of that name, and the rows in the order of their ids. */
  lemma TextSaysRecord(nfc: Normaliser, iso: DateFormat, input: RecordInput)
    requires AllReadable(input)
    ensures
      var text := Canonicalise(nfc, Build(iso, input).value);
      text.Ok? && Parse(text.value).Some? && RecordSays(nfc, iso, Parse(text.value).value, input)
  {
    BuildHashable(nfc, iso, input);
    TextSays(nfc, Build(iso, input).value);
    var x := Parse(Canonicalise(nfc, Build(iso, input).value).value).value;
    TopLevelCount(nfc, iso, input, x);
    HeaderAt(nfc, iso, input, x);
    RevisionAt(nfc, iso, input, x);
    SubmitterAt(nfc, iso, input, x);
    ItemsAt(nfc, iso, input, x);
    MeasurementsAt(nfc, iso, input, x);
    PartsAt(nfc, iso, input, x);
    AttachmentsAt(nfc, iso, input, x);
    StepsAt(nfc, iso, input, x);
  }
}

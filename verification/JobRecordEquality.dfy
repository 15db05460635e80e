/**
 Which inputs build the same canonical job record, and that every record built can be hashed.
 */
module JobRecordEquality {
  import opened Wrappers
  import opened Texts
  import opened Decimals
  import opened CanonicalSerialiser
  import opened CanonicalEquality
  import opened CanonicalJobRecord

  // ---------------------------------------------------------------- row order

  ghost predicate UniqueIds(input: RecordInput) {
    && DistinctKeys(input.itemResults, ItemId())
    && DistinctKeys(input.measurementResults, MeasurementId())
    && DistinctKeys(input.partsUsed, PartId())
    && DistinctKeys(input.attachments, AttachmentId())
    && DistinctKeys(input.approvalSteps, StepId())
  }

  /** Every row of `xs` has the same row in `ys`, given how rows of this kind are told apart. */
  ghost predicate Counterparts<T>(xs: seq<T>, ys: seq<T>, same: (T, T) -> bool) {
    forall i | 0 <= i < |xs| :: HasCounterpart(xs[i], ys, same)
  }

  ghost predicate HasCounterpart<T>(x: T, ys: seq<T>, same: (T, T) -> bool) {
    exists j | 0 <= j < |ys| :: same(x, ys[j])
  }

  ghost predicate SameRows<T>(xs: seq<T>, ys: seq<T>, same: (T, T) -> bool) {
    Counterparts(xs, ys, same) && Counterparts(ys, xs, same)
  }

  /** The id shows in the rendered row. */
  function RenderedId(): Value -> Text {
    (v: Value) => if v.Obj? && v.entries != [] && v.entries[0].value.Str? then v.entries[0].value.text else []
  }

  lemma RenderedDistinct<T>(xs: seq<T>, id: T -> Text, render: T -> Value)
    requires DistinctKeys(xs, id)
    requires forall x :: RenderedId()(render(x)) == id(x)
    ensures DistinctKeys(Map(render, xs), RenderedId())
  {
  }

  ghost predicate RenderDecides<T>(xs: seq<T>, ys: seq<T>, render: T -> Value, same: (T, T) -> bool) {
    forall i, j | 0 <= i < |xs| && 0 <= j < |ys| :: same(xs[i], ys[j]) <==> render(xs[i]) == render(ys[j])
  }

  lemma CounterpartsRender<T>(xs: seq<T>, ys: seq<T>, render: T -> Value, same: (T, T) -> bool)
    requires RenderDecides(xs, ys, render, same) && Counterparts(xs, ys, same)
    ensures Within(Map(render, xs), Map(render, ys))
  {
    var ms, ns := Map(render, xs), Map(render, ys);
    forall i | 0 <= i < |ms| ensures ms[i] in ns {
      var j :| 0 <= j < |ys| && same(xs[i], ys[j]);
      assert ns[j] == ms[i];
    }
  }

  lemma RenderedCounterparts<T>(xs: seq<T>, ys: seq<T>, render: T -> Value, same: (T, T) -> bool)
    requires RenderDecides(xs, ys, render, same) && Within(Map(render, xs), Map(render, ys))
    ensures Counterparts(xs, ys, same)
  {
    var ms, ns := Map(render, xs), Map(render, ys);
    forall i | 0 <= i < |xs| ensures HasCounterpart(xs[i], ys, same) {
      assert ms[i] in ns;
      var j :| 0 <= j < |ns| && ns[j] == ms[i];
      assert same(xs[i], ys[j]);
    }
  }

  /** Rows in id order render alike exactly when each row has a counterpart that renders like it. */
  lemma ByIdSameIff<T>(xs: seq<T>, ys: seq<T>, id: T -> Text, render: T -> Value, same: (T, T) -> bool)
    requires DistinctKeys(xs, id) && DistinctKeys(ys, id)
    requires forall x :: RenderedId()(render(x)) == id(x)
    requires RenderDecides(xs, ys, render, same) && RenderDecides(ys, xs, render, same)
    ensures ById(xs, id, render) == ById(ys, id, render) <==> SameRows(xs, ys, same)
  {
    var ms, ns := Map(render, xs), Map(render, ys);
    RenderedDistinct(xs, id, render);
    RenderedDistinct(ys, id, render);
    SortMap(render, xs, id, RenderedId());
    SortMap(render, ys, id, RenderedId());
    SortedSameIff(ms, ns, RenderedId());
    if SameRows(xs, ys, same) {
      CounterpartsRender(xs, ys, render, same);
      CounterpartsRender(ys, xs, render, same);
    }
    if SameElements(ms, ns) {
      RenderedCounterparts(xs, ys, render, same);
      RenderedCounterparts(ys, xs, render, same);
    }
  }

  // ---------------------------------------------------------------- which inputs give the same record

  function Same<T(==)>(): (T, T) -> bool {
    (x: T, y: T) => x == y
  }

  /** A text reading counts only where there is no numeric one; numeric readings count by value. */
  ghost function SameMeasurement(): (MeasurementResult, MeasurementResult) -> bool {
    (r: MeasurementResult, s: MeasurementResult) =>
      && r.id == s.id && r.templateMeasurementId == s.templateMeasurementId && r.judgement == s.judgement
      && if r.readingNumeric.Some? && s.readingNumeric.Some?
         then SameNumber(r.readingNumeric.value, s.readingNumeric.value)
         else r.readingNumeric == s.readingNumeric && r.readingText == s.readingText
  }

  ghost function SamePart(): (PartUsed, PartUsed) -> bool {
    (p: PartUsed, q: PartUsed) =>
      p.id == q.id && p.partNo == q.partNo && p.description == q.description && SameNumber(p.quantity, q.quantity)
  }

  /** The decimals denote the same rational. */
  ghost predicate SameNumber(a: Text, b: Text) {
    IsReading(a) && IsReading(b) && MatchDecimal(a).value.Value() == MatchDecimal(b).value.Value()
  }

  /** The inputs agree on every bound field, with rows taken as sets keyed by id. */
  ghost predicate SameInput(a: RecordInput, b: RecordInput) {
    && a.job == b.job && a.revision == b.revision && a.submitter == b.submitter
    && SameRows(a.itemResults, b.itemResults, Same())
    && SameRows(a.measurementResults, b.measurementResults, SameMeasurement())
    && SameRows(a.partsUsed, b.partsUsed, SamePart())
    && SameRows(a.attachments, b.attachments, Same())
    && SameRows(a.approvalSteps, b.approvalSteps, Same())
  }

  lemma ReadingSameIff(a: Text, b: Text)
    requires IsReading(a) && IsReading(b)
    ensures Quantity(a) == Quantity(b) <==> SameNumber(a, b)
    ensures Quantity(a).Exact?
  {
    CanonicalDecimalSameTextIff(a, b);
  }

  lemma OrNullInjective(a: Option<Text>, b: Option<Text>)
    ensures OrNull(a) == OrNull(b) <==> a == b
  {
  }

  lemma IntInjective(a: int, b: int)
    ensures Int(a) == Int(b) <==> a == b
  {
    if Int(a) == Int(b) {
      IntTextInjective(a, b);
    }
  }

  lemma IsoInjective(iso: DateFormat, a: Instant, b: Instant)
    ensures iso(a) == iso(b) <==> a == b
  {
    assert IsDateFormat(iso);
  }

  // ---------------------------------------------------------------- property by property

  /** Objects with the same keys are equal exactly when their values are. */
  lemma KeyedSameIff(ks: seq<Text>, a: seq<Value>, b: seq<Value>)
    requires |ks| == |a| == |b|
    ensures Keyed(ks, a) == Keyed(ks, b) <==> a == b
  {
    var v, w := Keyed(ks, a), Keyed(ks, b);
    if v == w {
      forall i | 0 <= i < |ks| ensures a[i] == b[i] {
        assert v.entries[i] == w.entries[i];
      }
    }
  }

  lemma ItemSameIff(r: ItemResult, s: ItemResult)
    ensures ItemRecord(r) == ItemRecord(s) <==> r == s
  {
    var v, w := ItemValues(r), ItemValues(s);
    KeyedSameIff(ItemKeys(), v, w);
    OrNullInjective(r.remark, s.remark);
    if v == w {
      assert v[0] == w[0] && v[1] == w[1] && v[2] == w[2] && v[3] == w[3];
    }
  }

  lemma ReadingValueSameIff(r: MeasurementResult, s: MeasurementResult)
    requires Readable(r) && Readable(s)
    ensures ReadingValue(r) == ReadingValue(s) <==>
      if r.readingNumeric.Some? && s.readingNumeric.Some?
      then SameNumber(r.readingNumeric.value, s.readingNumeric.value)
      else r.readingNumeric == s.readingNumeric && r.readingText == s.readingText
  {
    OrNullInjective(r.readingText, s.readingText);
    if r.readingNumeric.Some? {
      ReadingSameIff(r.readingNumeric.value, r.readingNumeric.value);
    }
    if s.readingNumeric.Some? {
      ReadingSameIff(s.readingNumeric.value, s.readingNumeric.value);
    }
    if r.readingNumeric.Some? && s.readingNumeric.Some? {
      ReadingSameIff(r.readingNumeric.value, s.readingNumeric.value);
    }
  }

  lemma MeasurementSameIff(r: MeasurementResult, s: MeasurementResult)
    requires Readable(r) && Readable(s)
    ensures MeasurementRecord(r) == MeasurementRecord(s) <==> SameMeasurement()(r, s)
  {
    var v, w := MeasurementValues(r), MeasurementValues(s);
    KeyedSameIff(MeasurementKeys(), v, w);
    ReadingValueSameIff(r, s);
    if v == w {
      assert v[0] == w[0] && v[1] == w[1] && v[2] == w[2] && v[3] == w[3];
    }
  }

  lemma PartSameIff(p: PartUsed, q: PartUsed)
    requires IsReading(p.quantity) && IsReading(q.quantity)
    ensures PartRecord(p) == PartRecord(q) <==> SamePart()(p, q)
  {
    var v, w := PartValues(p), PartValues(q);
    KeyedSameIff(PartKeys(), v, w);
    OrNullInjective(p.partNo, q.partNo);
    ReadingSameIff(p.quantity, q.quantity);
    if v == w {
      assert v[0] == w[0] && v[1] == w[1] && v[2] == w[2] && v[3] == w[3];
    }
  }

  lemma AttachmentSameIff(a: Attachment, b: Attachment)
    ensures AttachmentRecord(a) == AttachmentRecord(b) <==> a == b
  {
    var v, w := AttachmentValues(a), AttachmentValues(b);
    KeyedSameIff(AttachmentKeys(), v, w);
    if v == w {
      assert v[0] == w[0] && v[1] == w[1];
    }
  }

  lemma StepSameIff(iso: DateFormat, s: ApprovalStep, t: ApprovalStep)
    ensures StepRecord(iso, s) == StepRecord(iso, t) <==> s == t
  {
    var v, w := StepValues(iso, s), StepValues(iso, t);
    KeyedSameIff(StepKeys(), v, w);
    OrNullInjective(s.onBehalfOfId, t.onBehalfOfId);
    OrNullInjective(s.reason, t.reason);
    IntInjective(s.stageOrdinal, t.stageOrdinal);
    IsoInjective(iso, s.actedAt, t.actedAt);
    if v == w {
      assert v[0] == w[0] && v[1] == w[1] && v[2] == w[2] && v[3] == w[3];
      assert v[4] == w[4] && v[5] == w[5] && v[6] == w[6];
    }
  }

  lemma HeaderSameIff(a: JobHeader, b: JobHeader)
    ensures JobRecord(a) == JobRecord(b) <==> a == b
  {
    var v, w := HeaderValues(a), HeaderValues(b);
    KeyedSameIff(HeaderKeys(), v, w);
    if v == w {
      assert v[0] == w[0] && v[1] == w[1] && v[2] == w[2] && v[3] == w[3] && v[4] == w[4] && v[5] == w[5];
    }
  }

  lemma RevisionSameIff(a: TemplateRevision, b: TemplateRevision)
    ensures RevisionRecord(a) == RevisionRecord(b) <==> a == b
  {
    var v, w := RevisionValues(a), RevisionValues(b);
    KeyedSameIff(RevisionKeys(), v, w);
    IntInjective(a.sequenceOrdinal, b.sequenceOrdinal);
    if v == w {
      assert v[0] == w[0] && v[1] == w[1] && v[2] == w[2] && v[3] == w[3];
    }
  }

  lemma SubmitterSameIff(iso: DateFormat, a: Submitter, b: Submitter)
    ensures SubmitterRecord(iso, a) == SubmitterRecord(iso, b) <==> a == b
  {
    var v, w := SubmitterValues(iso, a), SubmitterValues(iso, b);
    KeyedSameIff(SubmitterKeys(), v, w);
    OrNullInjective(a.userId, b.userId);
    if a.submittedAt.Some? && b.submittedAt.Some? {
      IsoInjective(iso, a.submittedAt.value, b.submittedAt.value);
    }
    if v == w {
      assert v[0] == w[0] && v[1] == w[1];
    }
  }

  lemma ItemRowsSameIff(xs: seq<ItemResult>, ys: seq<ItemResult>)
    requires DistinctKeys(xs, ItemId()) && DistinctKeys(ys, ItemId())
    ensures ById(xs, ItemId(), ItemRecord) == ById(ys, ItemId(), ItemRecord) <==> SameRows(xs, ys, Same())
  {
    forall r: ItemResult, s: ItemResult ensures Same()(r, s) <==> ItemRecord(r) == ItemRecord(s) {
      ItemSameIff(r, s);
    }
    ByIdSameIff(xs, ys, ItemId(), ItemRecord, Same());
  }

  lemma MeasurementRowsSameIff(xs: seq<MeasurementResult>, ys: seq<MeasurementResult>)
    requires DistinctKeys(xs, MeasurementId()) && DistinctKeys(ys, MeasurementId())
    requires forall i | 0 <= i < |xs| :: Readable(xs[i])
    requires forall i | 0 <= i < |ys| :: Readable(ys[i])
    ensures ById(xs, MeasurementId(), MeasurementRecord) == ById(ys, MeasurementId(), MeasurementRecord)
            <==> SameRows(xs, ys, SameMeasurement())
  {
    forall r: MeasurementResult, s: MeasurementResult | Readable(r) && Readable(s)
      ensures SameMeasurement()(r, s) <==> MeasurementRecord(r) == MeasurementRecord(s) {
      MeasurementSameIff(r, s);
    }
    ByIdSameIff(xs, ys, MeasurementId(), MeasurementRecord, SameMeasurement());
  }

  lemma PartRowsSameIff(xs: seq<PartUsed>, ys: seq<PartUsed>)
    requires DistinctKeys(xs, PartId()) && DistinctKeys(ys, PartId())
    requires forall i | 0 <= i < |xs| :: IsReading(xs[i].quantity)
    requires forall i | 0 <= i < |ys| :: IsReading(ys[i].quantity)
    ensures ById(xs, PartId(), PartRecord) == ById(ys, PartId(), PartRecord) <==> SameRows(xs, ys, SamePart())
  {
    forall p: PartUsed, q: PartUsed | IsReading(p.quantity) && IsReading(q.quantity)
      ensures SamePart()(p, q) <==> PartRecord(p) == PartRecord(q) {
      PartSameIff(p, q);
    }
    ByIdSameIff(xs, ys, PartId(), PartRecord, SamePart());
  }

  lemma AttachmentRowsSameIff(xs: seq<Attachment>, ys: seq<Attachment>)
    requires DistinctKeys(xs, AttachmentId()) && DistinctKeys(ys, AttachmentId())
    ensures ById(xs, AttachmentId(), AttachmentRecord) == ById(ys, AttachmentId(), AttachmentRecord)
            <==> SameRows(xs, ys, Same())
  {
    forall a: Attachment, b: Attachment ensures Same()(a, b) <==> AttachmentRecord(a) == AttachmentRecord(b) {
      AttachmentSameIff(a, b);
    }
    ByIdSameIff(xs, ys, AttachmentId(), AttachmentRecord, Same());
  }

  lemma StepRowsSameIff(iso: DateFormat, xs: seq<ApprovalStep>, ys: seq<ApprovalStep>)
    requires DistinctKeys(xs, StepId()) && DistinctKeys(ys, StepId())
    ensures ById(xs, StepId(), StepRender(iso)) == ById(ys, StepId(), StepRender(iso)) <==> SameRows(xs, ys, Same())
  {
    forall s: ApprovalStep, t: ApprovalStep ensures Same()(s, t) <==> StepRender(iso)(s) == StepRender(iso)(t) {
      StepSameIff(iso, s, t);
    }
    ByIdSameIff(xs, ys, StepId(), StepRender(iso), Same());
  }

  /** Two inputs build the same record exactly when they agree on what it binds. */
  lemma BuildSameIff(iso: DateFormat, a: RecordInput, b: RecordInput)
    requires AllReadable(a) && AllReadable(b) && UniqueIds(a) && UniqueIds(b)
    ensures Build(iso, a) == Build(iso, b) <==> SameInput(a, b)
  {
    HeaderSameIff(a.job, b.job);
    RevisionSameIff(a.revision, b.revision);
    SubmitterSameIff(iso, a.submitter, b.submitter);
    ItemRowsSameIff(a.itemResults, b.itemResults);
    MeasurementRowsSameIff(a.measurementResults, b.measurementResults);
    PartRowsSameIff(a.partsUsed, b.partsUsed);
    AttachmentRowsSameIff(a.attachments, b.attachments);
    StepRowsSameIff(iso, a.approvalSteps, b.approvalSteps);
    var v, w := TopLevelValues(iso, a), TopLevelValues(iso, b);
    KeyedSameIff(TopLevelKeys(), v, w);
    if v == w {
      assert v[0] == w[0] && v[1] == w[1] && v[2] == w[2] && v[3] == w[3];
      assert v[4] == w[4] && v[5] == w[5] && v[6] == w[6] && v[7] == w[7];
    }
  }

  /** The order in which a query returned the rows does not reach the record. */
  lemma BuildOrderIrrelevant(iso: DateFormat, a: RecordInput, b: RecordInput)
    requires UniqueIds(a)
    requires a.job == b.job && a.revision == b.revision && a.submitter == b.submitter
    requires multiset(a.itemResults) == multiset(b.itemResults)
    requires multiset(a.measurementResults) == multiset(b.measurementResults)
    requires multiset(a.partsUsed) == multiset(b.partsUsed)
    requires multiset(a.attachments) == multiset(b.attachments)
    requires multiset(a.approvalSteps) == multiset(b.approvalSteps)
    ensures Build(iso, a) == Build(iso, b)
  {
    SortOrderIrrelevant(a.itemResults, b.itemResults, ItemId());
    SortOrderIrrelevant(a.measurementResults, b.measurementResults, MeasurementId());
    SortOrderIrrelevant(a.partsUsed, b.partsUsed, PartId());
    SortOrderIrrelevant(a.attachments, b.attachments, AttachmentId());
    SortOrderIrrelevant(a.approvalSteps, b.approvalSteps, StepId());
    SameReadability(a, b);
  }

  lemma SameReadability(a: RecordInput, b: RecordInput)
    requires multiset(a.measurementResults) == multiset(b.measurementResults)
    requires multiset(a.partsUsed) == multiset(b.partsUsed)
    ensures AllReadable(a) <==> AllReadable(b)
  {
    PermutedSameElements(a.measurementResults, b.measurementResults);
    PermutedSameElements(a.partsUsed, b.partsUsed);
  }

  // ---------------------------------------------------------------- the record can be hashed

  /** Names that are plain ASCII and pairwise different. */
  ghost predicate PlainKeys(ks: seq<Text>) {
    && (forall i | 0 <= i < |ks| :: IsAscii(ks[i]))
    && forall i, j | 0 <= i < j < |ks| :: ks[i] != ks[j]
  }

  ghost predicate HashableValue(nfc: Normaliser, v: Value) {
    Accepted(v) && DistinctNames(nfc, v)
  }

  /** ASCII names that differ stay different under NFC. */
  lemma PlainNames(nfc: Normaliser, es: seq<Entry>)
    requires forall i | 0 <= i < |es| :: IsAscii(es[i].key) && DistinctNames(nfc, es[i].value)
    requires forall i, j | 0 <= i < j < |es| :: es[i].key != es[j].key
    ensures DistinctNames(nfc, Obj(es))
  {
    forall i | 0 <= i < |es| ensures nfc(es[i].key) == es[i].key {
      assert IsNormaliser(nfc);
    }
  }

  ghost predicate AllHashable(nfc: Normaliser, vs: seq<Value>) {
    forall i | 0 <= i < |vs| :: HashableValue(nfc, vs[i])
  }

  lemma KeyedHashable(nfc: Normaliser, ks: seq<Text>, vs: seq<Value>)
    requires |ks| == |vs| && PlainKeys(ks) && AllHashable(nfc, vs)
    ensures Accepted(Keyed(ks, vs)) && DistinctNames(nfc, Keyed(ks, vs))
  {
    var es := Keyed(ks, vs).entries;
    forall i | 0 <= i < |es| ensures es[i].key == ks[i] && HashableValue(nfc, es[i].value) {
    }
    PlainNames(nfc, es);
  }

  lemma RowNames()
    ensures PlainKeys(ItemKeys()) && PlainKeys(MeasurementKeys())
    ensures PlainKeys(PartKeys()) && PlainKeys(AttachmentKeys())
  {
    assert STATUS[0] != REMARK[0];
  }

  lemma JobNames()
    ensures PlainKeys(HeaderKeys()) && PlainKeys(RevisionKeys()) && PlainKeys(SubmitterKeys())
  {
    assert JOB_NUMBER[0] != FREQUENCY[0];
  }

  lemma ItemHashable(nfc: Normaliser, r: ItemResult)
    ensures HashableValue(nfc, ItemRecord(r))
  {
    RowNames();
    KeyedHashable(nfc, ItemKeys(), ItemValues(r));
  }

  lemma MeasurementHashable(nfc: Normaliser, r: MeasurementResult)
    requires Readable(r)
    ensures HashableValue(nfc, MeasurementRecord(r))
  {
    RowNames();
    KeyedHashable(nfc, MeasurementKeys(), MeasurementValues(r));
  }

  lemma QuantityHashable(nfc: Normaliser, t: Text)
    requires IsReading(t)
    ensures HashableValue(nfc, Quantity(t))
  {
  }

  lemma PartHashable(nfc: Normaliser, p: PartUsed)
    requires IsReading(p.quantity)
    ensures HashableValue(nfc, PartRecord(p))
  {
    RowNames();
    QuantityHashable(nfc, p.quantity);
    KeyedHashable(nfc, PartKeys(), PartValues(p));
  }

  lemma AttachmentHashable(nfc: Normaliser, a: Attachment)
    ensures HashableValue(nfc, AttachmentRecord(a))
  {
    RowNames();
    KeyedHashable(nfc, AttachmentKeys(), AttachmentValues(a));
  }

  lemma StepNames()
    ensures PlainKeys(StepKeys())
  {
    assert STAGE_ORDINAL[0] != ON_BEHALF_OF_ID[0] && ACTION[0] != REASON[0] && ACTOR_ID[3] != ACTED_AT[3];
  }

  lemma StepHashable(nfc: Normaliser, iso: DateFormat, s: ApprovalStep)
    ensures HashableValue(nfc, StepRecord(iso, s))
  {
    StepNames();
    KeyedHashable(nfc, StepKeys(), StepValues(iso, s));
  }

  lemma HeaderHashable(nfc: Normaliser, j: JobHeader)
    ensures HashableValue(nfc, JobRecord(j))
  {
    JobNames();
    KeyedHashable(nfc, HeaderKeys(), HeaderValues(j));
  }

  lemma RevisionHashable(nfc: Normaliser, t: TemplateRevision)
    ensures HashableValue(nfc, RevisionRecord(t))
  {
    JobNames();
    KeyedHashable(nfc, RevisionKeys(), RevisionValues(t));
  }

  lemma SubmitterHashable(nfc: Normaliser, iso: DateFormat, s: Submitter)
    ensures HashableValue(nfc, SubmitterRecord(iso, s))
  {
    JobNames();
    KeyedHashable(nfc, SubmitterKeys(), SubmitterValues(iso, s));
  }

  lemma ByIdHashable<T>(nfc: Normaliser, rows: seq<T>, id: T -> Text, render: T -> Value)
    requires forall i | 0 <= i < |rows| :: HashableValue(nfc, render(rows[i]))
    ensures HashableValue(nfc, ById(rows, id, render))
  {
    var sorted := SortBy(rows, id);
    SortMembers(rows, id);
    forall i | 0 <= i < |sorted| ensures HashableValue(nfc, render(sorted[i])) {
      var k :| 0 <= k < |rows| && rows[k] == sorted[i];
    }
  }

  lemma RowsHashable(nfc: Normaliser, iso: DateFormat, input: RecordInput)
    requires AllReadable(input)
    ensures HashableValue(nfc, ById(input.itemResults, ItemId(), ItemRecord))
    ensures HashableValue(nfc, ById(input.measurementResults, MeasurementId(), MeasurementRecord))
    ensures HashableValue(nfc, ById(input.partsUsed, PartId(), PartRecord))
    ensures HashableValue(nfc, ById(input.attachments, AttachmentId(), AttachmentRecord))
    ensures HashableValue(nfc, ById(input.approvalSteps, StepId(), StepRender(iso)))
  {
    forall r: ItemResult ensures HashableValue(nfc, ItemRecord(r)) {
      ItemHashable(nfc, r);
    }
    forall r: MeasurementResult | Readable(r) ensures HashableValue(nfc, MeasurementRecord(r)) {
      MeasurementHashable(nfc, r);
    }
    forall p: PartUsed | IsReading(p.quantity) ensures HashableValue(nfc, PartRecord(p)) {
      PartHashable(nfc, p);
    }
    forall a: Attachment ensures HashableValue(nfc, AttachmentRecord(a)) {
      AttachmentHashable(nfc, a);
    }
    forall s: ApprovalStep ensures HashableValue(nfc, StepRender(iso)(s)) {
      StepHashable(nfc, iso, s);
    }
    ByIdHashable(nfc, input.itemResults, ItemId(), ItemRecord);
    ByIdHashable(nfc, input.measurementResults, MeasurementId(), MeasurementRecord);
    ByIdHashable(nfc, input.partsUsed, PartId(), PartRecord);
    ByIdHashable(nfc, input.attachments, AttachmentId(), AttachmentRecord);
    ByIdHashable(nfc, input.approvalSteps, StepId(), StepRender(iso));
  }

  lemma TopLevelNames()
    ensures PlainKeys(TopLevelKeys())
  {
    assert |JOB| == 3 && |TEMPLATE_REVISION| == 16 && |SUBMITTER| == 9 && |ITEM_RESULTS| == 11;
    assert |MEASUREMENT_RESULTS| == 18 && |PARTS_USED| == 9 && |ATTACHMENTS| == 11 && |APPROVAL_STEPS| == 13;
    assert SUBMITTER[0] != PARTS_USED[0] && ITEM_RESULTS[0] != ATTACHMENTS[0];
  }

  lemma EightHashable(
    nfc: Normaliser, v0: Value, v1: Value, v2: Value, v3: Value, v4: Value, v5: Value, v6: Value, v7: Value)
    requires HashableValue(nfc, v0) && HashableValue(nfc, v1) && HashableValue(nfc, v2) && HashableValue(nfc, v3)
    requires HashableValue(nfc, v4) && HashableValue(nfc, v5) && HashableValue(nfc, v6) && HashableValue(nfc, v7)
    ensures AllHashable(nfc, [v0, v1, v2, v3, v4, v5, v6, v7])
  {
  }

  lemma TopLevelHashable(nfc: Normaliser, iso: DateFormat, input: RecordInput)
    requires AllReadable(input)
    ensures AllHashable(nfc, TopLevelValues(iso, input))
  {
    HeaderHashable(nfc, input.job);
    RevisionHashable(nfc, input.revision);
    SubmitterHashable(nfc, iso, input.submitter);
    RowsHashable(nfc, iso, input);
    var v := TopLevelValues(iso, input);
    EightHashable(nfc, v[0], v[1], v[2], v[3], v[4], v[5], v[6], v[7]);
  }

  lemma BuildHashable(nfc: Normaliser, iso: DateFormat, input: RecordInput)
    requires AllReadable(input)
    ensures Accepted(Build(iso, input).value) && DistinctNames(nfc, Build(iso, input).value)
  {
    TopLevelHashable(nfc, iso, input);
    TopLevelNames();
    KeyedHashable(nfc, TopLevelKeys(), TopLevelValues(iso, input));
  }

  /** Records that are built always have a content text, and it identifies the record. */
  lemma ContentTextIffSameRecord(nfc: Normaliser, iso: DateFormat, a: RecordInput, b: RecordInput)
    requires AllReadable(a) && AllReadable(b)
    ensures var v, w := Build(iso, a).value, Build(iso, b).value;
            && Canonicalise(nfc, v).Ok? && Canonicalise(nfc, w).Ok?
            && (Canonicalise(nfc, v) == Canonicalise(nfc, w) <==> SameRecord(nfc, v, w))
  {
    BuildHashable(nfc, iso, a);
    BuildHashable(nfc, iso, b);
    AcceptedIff(nfc, Build(iso, a).value);
    AcceptedIff(nfc, Build(iso, b).value);
    SameTextIffSameRecord(nfc, Build(iso, a).value, Build(iso, b).value);
  }
}

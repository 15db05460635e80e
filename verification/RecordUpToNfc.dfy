/**
 The signed record in terms of the rows it was built from: two inputs give the same record exactly when
 they agree field by field, with texts compared up to NFC.
 */
module RecordUpToNfc {
  import opened Wrappers
  import opened Texts
  import opened Decimals
  import opened NumberTexts
  import opened CanonicalSerialiser
  import opened CanonicalEquality
  import opened CanonicalJobRecord
  import opened JobRecordEquality

  // ---------------------------------------------------------------- values of the same make

  predicate IsLeafText(v: Value) {
    v.Null? || v.Str? || v.Exact?
  }

  predicate IsPlainNumber(v: Value) {
    v.Number? && v.n.Finite? && !HasE(v.n.text)
  }

  /** Values that come from the same place of two records: the same keys, the same kinds of leaves. */
  ghost predicate Alike(v: Value, w: Value) {
    || (IsLeafText(v) && IsLeafText(w))
    || ((v.Null? || v.Timestamp?) && (w.Null? || w.Timestamp?))
    || (IsPlainNumber(v) && IsPlainNumber(w))
    || (v.Arr? && w.Arr?
        && forall i, j | 0 <= i < |v.elems| && 0 <= j < |w.elems| :: Alike(v.elems[i], w.elems[j]))
    || (v.Obj? && w.Obj? && |v.entries| == |w.entries| && PlainEntries(v.entries)
        && forall i | 0 <= i < |v.entries| ::
             v.entries[i].key == w.entries[i].key && Alike(v.entries[i].value, w.entries[i].value))
  }

  ghost predicate PlainEntries(es: seq<Entry>) {
    && (forall i | 0 <= i < |es| :: IsAscii(es[i].key))
    && forall i, j | 0 <= i < j < |es| :: es[i].key != es[j].key
  }

  /** The value with every text leaf normalised. */
  function Normal(nfc: Normaliser, v: Value): Value {
    match v
    case Str(text) => Str(nfc(text))
    case Arr(elems) => Arr(seq(|elems|, i requires 0 <= i < |elems| => Normal(nfc, elems[i])))
    case Obj(entries) =>
      Obj(seq(|entries|, i requires 0 <= i < |entries| => Entry(entries[i].key, Normal(nfc, entries[i].value))))
    case _ => v
  }

  lemma LeafSameIff(nfc: Normaliser, v: Value, w: Value)
    requires Alike(v, w) && !v.Arr? && !v.Obj?
    ensures SameRecord(nfc, v, w) <==> Normal(nfc, v) == Normal(nfc, w)
  {
    if v.Exact? && w.Exact? {
      NormalTextUnique(v.canonical, w.canonical);
    }
    if IsPlainNumber(v) && IsPlainNumber(w) {
      NumericSameIff(nfc, v, w);
    }
  }

  lemma PlainKeyKept(nfc: Normaliser, key: Text)
    requires IsAscii(key)
    ensures nfc(key) == key
  {
    assert IsNormaliser(nfc);
  }

  lemma Counterpart(nfc: Normaliser, es: seq<Entry>, fs: seq<Entry>, i: nat) returns (j: nat)
    requires i < |es| && Live(es[i]) && Paired(nfc, es, fs, false)
    ensures j < |fs| && SameProperty(nfc, es[i], fs[j])
  {
    j :| j < |fs| && Live(fs[j]) && SameProperty(nfc, es[i], fs[j]);
  }

  lemma OneKeyOnePlace(nfc: Normaliser, es: seq<Entry>, i: nat, j: nat)
    requires PlainEntries(es) && i < |es| && j < |es|
    ensures nfc(es[i].key) == nfc(es[j].key) <==> i == j
  {
    PlainKeyKept(nfc, es[i].key);
    PlainKeyKept(nfc, es[j].key);
  }

  ghost predicate Pointwise(nfc: Normaliser, es: seq<Entry>, fs: seq<Entry>) {
    |es| == |fs| && forall i | 0 <= i < |es| :: SameProperty(nfc, es[i], fs[i])
  }

  lemma PairedAtKey(nfc: Normaliser, es: seq<Entry>, fs: seq<Entry>, i: nat)
    requires |es| == |fs| && PlainEntries(es) && i < |es| && Live(es[i])
    requires forall k | 0 <= k < |es| :: es[k].key == fs[k].key
    requires Paired(nfc, es, fs, false)
    ensures SameProperty(nfc, es[i], fs[i])
  {
    var j := Counterpart(nfc, es, fs, i);
    OneKeyOnePlace(nfc, es, i, j);
  }

  lemma PointwisePairs(nfc: Normaliser, es: seq<Entry>, fs: seq<Entry>)
    requires Pointwise(nfc, es, fs)
    requires forall i | 0 <= i < |es| :: Live(es[i]) && Live(fs[i])
    ensures Paired(nfc, es, fs, false) && Paired(nfc, fs, es, true)
  {
  }

  /** Objects with one list of plain keys are the same record exactly when they are so key by key. */
  lemma ObjectSameIff(nfc: Normaliser, es: seq<Entry>, fs: seq<Entry>)
    requires |es| == |fs| && PlainEntries(es)
    requires forall i | 0 <= i < |es| :: es[i].key == fs[i].key && Live(es[i]) && Live(fs[i])
    ensures SameRecord(nfc, Obj(es), Obj(fs)) <==> Pointwise(nfc, es, fs)
  {
    SameRecordPaired(nfc, Obj(es), Obj(fs));
    if Paired(nfc, es, fs, false) {
      forall i: nat | i < |es| ensures SameProperty(nfc, es[i], fs[i]) {
        PairedAtKey(nfc, es, fs, i);
      }
    }
    if Pointwise(nfc, es, fs) {
      PointwisePairs(nfc, es, fs);
    }
  }

  /** Values of the same make are the same record exactly when they are equal up to NFC. */
  lemma {:induction false} AlikeSameIff(nfc: Normaliser, v: Value, w: Value)
    requires Alike(v, w)
    ensures SameRecord(nfc, v, w) <==> Normal(nfc, v) == Normal(nfc, w)
  {
    if v.Arr? {
      var a, b := Normal(nfc, v), Normal(nfc, w);
      forall i | 0 <= i < |v.elems| && i < |w.elems|
        ensures SameRecord(nfc, v.elems[i], w.elems[i]) <==> a.elems[i] == b.elems[i]
      {
        AlikeSameIff(nfc, v.elems[i], w.elems[i]);
      }
      assert a == b <==> |v.elems| == |w.elems| && forall i | 0 <= i < |v.elems| :: a.elems[i] == b.elems[i];
    } else if v.Obj? {
      var a, b := Normal(nfc, v), Normal(nfc, w);
      forall i | 0 <= i < |v.entries|
        ensures SameProperty(nfc, v.entries[i], w.entries[i]) <==> a.entries[i] == b.entries[i]
      {
        AlikeSameIff(nfc, v.entries[i].value, w.entries[i].value);
      }
      ObjectSameIff(nfc, v.entries, w.entries);
      assert a == b <==> forall i | 0 <= i < |v.entries| :: a.entries[i] == b.entries[i];
    } else {
      LeafSameIff(nfc, v, w);
    }
  }

  // ---------------------------------------------------------------- inputs with their texts normalised

  function NormalOption(nfc: Normaliser, t: Option<Text>): Option<Text> {
    if t.Some? then Some(nfc(t.value)) else None
  }

  function NormalItem(nfc: Normaliser): ItemResult -> ItemResult {
    (r: ItemResult) =>
      r.(templateItemId := nfc(r.templateItemId), status := nfc(r.status), remark := NormalOption(nfc, r.remark))
  }

  function NormalMeasurement(nfc: Normaliser): MeasurementResult -> MeasurementResult {
    (r: MeasurementResult) =>
      r.(templateMeasurementId := nfc(r.templateMeasurementId), readingText := NormalOption(nfc, r.readingText),
         judgement := nfc(r.judgement))
  }

  function NormalPart(nfc: Normaliser): PartUsed -> PartUsed {
    (p: PartUsed) => p.(partNo := NormalOption(nfc, p.partNo), description := nfc(p.description))
  }

  function NormalAttachment(nfc: Normaliser): Attachment -> Attachment {
    (a: Attachment) => a.(sha256Hex := nfc(a.sha256Hex))
  }

  function NormalStep(nfc: Normaliser): ApprovalStep -> ApprovalStep {
    (s: ApprovalStep) =>
      s.(action := nfc(s.action), actorId := nfc(s.actorId), onBehalfOfId := NormalOption(nfc, s.onBehalfOfId),
         reason := NormalOption(nfc, s.reason))
  }

  function NormalHeader(nfc: Normaliser, j: JobHeader): JobHeader {
    JobHeader(nfc(j.id), nfc(j.jobNumber), nfc(j.assetId), nfc(j.templateRevisionId), nfc(j.frequency), nfc(j.status))
  }

  function NormalRevision(nfc: Normaliser, t: TemplateRevision): TemplateRevision {
    TemplateRevision(nfc(t.id), nfc(t.formTemplateId), nfc(t.revisionCode), t.sequenceOrdinal)
  }

  function NormalSubmitter(nfc: Normaliser, s: Submitter): Submitter {
    s.(userId := NormalOption(nfc, s.userId))
  }

  /** Every text field under NFC; row ids are left as they are, and decimals are compared by value anyway. */
  function NormalInput(nfc: Normaliser, a: RecordInput): RecordInput {
    RecordInput(
      NormalHeader(nfc, a.job), NormalRevision(nfc, a.revision), NormalSubmitter(nfc, a.submitter),
      Map(NormalItem(nfc), a.itemResults), Map(NormalMeasurement(nfc), a.measurementResults),
      Map(NormalPart(nfc), a.partsUsed), Map(NormalAttachment(nfc), a.attachments),
      Map(NormalStep(nfc), a.approvalSteps))
  }

  ghost predicate AsciiKeys<T>(rows: seq<T>, id: T -> Text) {
    forall i | 0 <= i < |rows| :: IsAscii(id(rows[i]))
  }

  /** Row ids are UUIDs, printed by the database. */
  ghost predicate AsciiIds(a: RecordInput) {
    && AsciiKeys(a.itemResults, ItemId()) && AsciiKeys(a.measurementResults, MeasurementId())
    && AsciiKeys(a.partsUsed, PartId()) && AsciiKeys(a.attachments, AttachmentId())
    && AsciiKeys(a.approvalSteps, StepId())
  }

  // ---------------------------------------------------------------- normalising commutes with building

  function NormalAll(nfc: Normaliser, vs: seq<Value>): (ws: seq<Value>)
    ensures |ws| == |vs|
  {
    seq(|vs|, i requires 0 <= i < |vs| => Normal(nfc, vs[i]))
  }

  lemma NormalKeyed(nfc: Normaliser, ks: seq<Text>, vs: seq<Value>)
    requires |ks| == |vs|
    ensures Normal(nfc, Keyed(ks, vs)) == Keyed(ks, NormalAll(nfc, vs))
  {
  }

  lemma NormalItemRecord(nfc: Normaliser, r: ItemResult)
    requires IsAscii(r.id)
    ensures ItemRecord(NormalItem(nfc)(r)) == Normal(nfc, ItemRecord(r))
  {
    PlainKeyKept(nfc, r.id);
    NormalKeyed(nfc, ItemKeys(), ItemValues(r));
    assert ItemValues(NormalItem(nfc)(r)) == NormalAll(nfc, ItemValues(r));
  }

  lemma NormalMeasurementRecord(nfc: Normaliser, r: MeasurementResult)
    requires IsAscii(r.id)
    ensures MeasurementRecord(NormalMeasurement(nfc)(r)) == Normal(nfc, MeasurementRecord(r))
  {
    PlainKeyKept(nfc, r.id);
    NormalKeyed(nfc, MeasurementKeys(), MeasurementValues(r));
    assert MeasurementValues(NormalMeasurement(nfc)(r)) == NormalAll(nfc, MeasurementValues(r));
  }

  lemma NormalPartRecord(nfc: Normaliser, p: PartUsed)
    requires IsAscii(p.id)
    ensures PartRecord(NormalPart(nfc)(p)) == Normal(nfc, PartRecord(p))
  {
    PlainKeyKept(nfc, p.id);
    NormalKeyed(nfc, PartKeys(), PartValues(p));
    assert PartValues(NormalPart(nfc)(p)) == NormalAll(nfc, PartValues(p));
  }

  lemma NormalAttachmentRecord(nfc: Normaliser, a: Attachment)
    requires IsAscii(a.id)
    ensures AttachmentRecord(NormalAttachment(nfc)(a)) == Normal(nfc, AttachmentRecord(a))
  {
    PlainKeyKept(nfc, a.id);
    NormalKeyed(nfc, AttachmentKeys(), AttachmentValues(a));
    assert AttachmentValues(NormalAttachment(nfc)(a)) == NormalAll(nfc, AttachmentValues(a));
  }

  lemma NormalStepRecord(nfc: Normaliser, iso: DateFormat, s: ApprovalStep)
    requires IsAscii(s.id)
    ensures StepRender(iso)(NormalStep(nfc)(s)) == Normal(nfc, StepRender(iso)(s))
  {
    PlainKeyKept(nfc, s.id);
    NormalKeyed(nfc, StepKeys(), StepValues(iso, s));
    assert StepValues(iso, NormalStep(nfc)(s)) == NormalAll(nfc, StepValues(iso, s));
  }

  lemma NormalHeaderRecord(nfc: Normaliser, j: JobHeader)
    ensures JobRecord(NormalHeader(nfc, j)) == Normal(nfc, JobRecord(j))
  {
    NormalKeyed(nfc, HeaderKeys(), HeaderValues(j));
    assert HeaderValues(NormalHeader(nfc, j)) == NormalAll(nfc, HeaderValues(j));
  }

  lemma NormalRevisionRecord(nfc: Normaliser, t: TemplateRevision)
    ensures RevisionRecord(NormalRevision(nfc, t)) == Normal(nfc, RevisionRecord(t))
  {
    NormalKeyed(nfc, RevisionKeys(), RevisionValues(t));
    assert RevisionValues(NormalRevision(nfc, t)) == NormalAll(nfc, RevisionValues(t));
  }

  lemma NormalSubmitterRecord(nfc: Normaliser, iso: DateFormat, s: Submitter)
    ensures SubmitterRecord(iso, NormalSubmitter(nfc, s)) == Normal(nfc, SubmitterRecord(iso, s))
  {
    NormalKeyed(nfc, SubmitterKeys(), SubmitterValues(iso, s));
    assert SubmitterValues(iso, NormalSubmitter(nfc, s)) == NormalAll(nfc, SubmitterValues(iso, s));
  }

  lemma NormalArray(nfc: Normaliser, vs: seq<Value>)
    ensures Normal(nfc, Arr(vs)) == Arr(NormalAll(nfc, vs))
  {
  }

  lemma NormalMapped<T>(nfc: Normaliser, rows: seq<T>, render: T -> Value, normal: T -> T)
    requires Commutes(nfc, rows, render, normal)
    ensures Map(render, Map(normal, rows)) == NormalAll(nfc, Map(render, rows))
  {
  }

  ghost predicate Commutes<T>(nfc: Normaliser, rows: seq<T>, render: T -> Value, normal: T -> T) {
    forall i | 0 <= i < |rows| :: render(normal(rows[i])) == Normal(nfc, render(rows[i]))
  }

  lemma SortedCommutes<T>(nfc: Normaliser, rows: seq<T>, id: T -> Text, render: T -> Value, normal: T -> T)
    requires Commutes(nfc, rows, render, normal)
    ensures Commutes(nfc, SortBy(rows, id), render, normal)
  {
    var sorted := SortBy(rows, id);
    SortMembers(rows, id);
    forall i | 0 <= i < |sorted| ensures render(normal(sorted[i])) == Normal(nfc, render(sorted[i])) {
      var k :| 0 <= k < |rows| && rows[k] == sorted[i];
    }
  }

  /** Rows keep their order when a mapping keeps their ids. */
  lemma NormalById<T>(nfc: Normaliser, rows: seq<T>, id: T -> Text, render: T -> Value, normal: T -> T)
    requires forall x :: id(normal(x)) == id(x)
    requires Commutes(nfc, rows, render, normal)
    ensures ById(Map(normal, rows), id, render) == Normal(nfc, ById(rows, id, render))
  {
    SortMap(normal, rows, id, id);
    SortedCommutes(nfc, rows, id, render, normal);
    NormalMapped(nfc, SortBy(rows, id), render, normal);
    NormalArray(nfc, Map(render, SortBy(rows, id)));
  }

  lemma NormalItems(nfc: Normaliser, rows: seq<ItemResult>)
    requires AsciiKeys(rows, ItemId())
    ensures ById(Map(NormalItem(nfc), rows), ItemId(), ItemRecord) == Normal(nfc, ById(rows, ItemId(), ItemRecord))
  {
    forall i | 0 <= i < |rows| ensures ItemRecord(NormalItem(nfc)(rows[i])) == Normal(nfc, ItemRecord(rows[i])) {
      NormalItemRecord(nfc, rows[i]);
    }
    NormalById(nfc, rows, ItemId(), ItemRecord, NormalItem(nfc));
  }

  lemma NormalMeasurements(nfc: Normaliser, rows: seq<MeasurementResult>)
    requires AsciiKeys(rows, MeasurementId())
    ensures ById(Map(NormalMeasurement(nfc), rows), MeasurementId(), MeasurementRecord)
            == Normal(nfc, ById(rows, MeasurementId(), MeasurementRecord))
  {
    forall i | 0 <= i < |rows|
      ensures MeasurementRecord(NormalMeasurement(nfc)(rows[i])) == Normal(nfc, MeasurementRecord(rows[i]))
    {
      NormalMeasurementRecord(nfc, rows[i]);
    }
    NormalById(nfc, rows, MeasurementId(), MeasurementRecord, NormalMeasurement(nfc));
  }

  lemma NormalParts(nfc: Normaliser, rows: seq<PartUsed>)
    requires AsciiKeys(rows, PartId())
    ensures ById(Map(NormalPart(nfc), rows), PartId(), PartRecord) == Normal(nfc, ById(rows, PartId(), PartRecord))
  {
    forall i | 0 <= i < |rows| ensures PartRecord(NormalPart(nfc)(rows[i])) == Normal(nfc, PartRecord(rows[i])) {
      NormalPartRecord(nfc, rows[i]);
    }
    NormalById(nfc, rows, PartId(), PartRecord, NormalPart(nfc));
  }

  lemma NormalAttachments(nfc: Normaliser, rows: seq<Attachment>)
    requires AsciiKeys(rows, AttachmentId())
    ensures ById(Map(NormalAttachment(nfc), rows), AttachmentId(), AttachmentRecord)
            == Normal(nfc, ById(rows, AttachmentId(), AttachmentRecord))
  {
    forall i | 0 <= i < |rows|
      ensures AttachmentRecord(NormalAttachment(nfc)(rows[i])) == Normal(nfc, AttachmentRecord(rows[i]))
    {
      NormalAttachmentRecord(nfc, rows[i]);
    }
    NormalById(nfc, rows, AttachmentId(), AttachmentRecord, NormalAttachment(nfc));
  }

  lemma NormalSteps(nfc: Normaliser, iso: DateFormat, rows: seq<ApprovalStep>)
    requires AsciiKeys(rows, StepId())
    ensures ById(Map(NormalStep(nfc), rows), StepId(), StepRender(iso))
            == Normal(nfc, ById(rows, StepId(), StepRender(iso)))
  {
    forall i | 0 <= i < |rows|
      ensures StepRender(iso)(NormalStep(nfc)(rows[i])) == Normal(nfc, StepRender(iso)(rows[i]))
    {
      NormalStepRecord(nfc, iso, rows[i]);
    }
    NormalById(nfc, rows, StepId(), StepRender(iso), NormalStep(nfc));
  }

  lemma NormalEight(
    nfc: Normaliser,
    a0: Value, a1: Value, a2: Value, a3: Value, a4: Value, a5: Value, a6: Value, a7: Value)
    ensures NormalAll(nfc, [a0, a1, a2, a3, a4, a5, a6, a7])
            == [Normal(nfc, a0), Normal(nfc, a1), Normal(nfc, a2), Normal(nfc, a3),
                Normal(nfc, a4), Normal(nfc, a5), Normal(nfc, a6), Normal(nfc, a7)]
  {
  }

  lemma NormalTopLevel(nfc: Normaliser, iso: DateFormat, a: RecordInput)
    requires AsciiIds(a)
    ensures TopLevelValues(iso, NormalInput(nfc, a)) == NormalAll(nfc, TopLevelValues(iso, a))
  {
    NormalHeaderRecord(nfc, a.job);
    NormalRevisionRecord(nfc, a.revision);
    NormalSubmitterRecord(nfc, iso, a.submitter);
    NormalItems(nfc, a.itemResults);
    NormalMeasurements(nfc, a.measurementResults);
    NormalParts(nfc, a.partsUsed);
    NormalAttachments(nfc, a.attachments);
    NormalSteps(nfc, iso, a.approvalSteps);
    NormalEight(
      nfc, JobRecord(a.job), RevisionRecord(a.revision), SubmitterRecord(iso, a.submitter),
      ById(a.itemResults, ItemId(), ItemRecord), ById(a.measurementResults, MeasurementId(), MeasurementRecord),
      ById(a.partsUsed, PartId(), PartRecord), ById(a.attachments, AttachmentId(), AttachmentRecord),
      ById(a.approvalSteps, StepId(), StepRender(iso)));
  }

  lemma NormalReadable(nfc: Normaliser, a: RecordInput)
    ensures AllReadable(NormalInput(nfc, a)) <==> AllReadable(a)
    ensures UniqueIds(a) ==> UniqueIds(NormalInput(nfc, a))
  {
    var n := NormalInput(nfc, a);
    forall i | 0 <= i < |a.measurementResults|
      ensures Readable(n.measurementResults[i]) <==> Readable(a.measurementResults[i])
    {}
    forall i | 0 <= i < |a.partsUsed|
      ensures IsReading(n.partsUsed[i].quantity) <==> IsReading(a.partsUsed[i].quantity)
    {}
  }

  lemma BuildNormal(nfc: Normaliser, iso: DateFormat, a: RecordInput)
    requires AllReadable(a) && AsciiIds(a)
    ensures Build(iso, NormalInput(nfc, a)) == Ok(Normal(nfc, Build(iso, a).value))
  {
    NormalReadable(nfc, a);
    NormalTopLevel(nfc, iso, a);
    NormalKeyed(nfc, TopLevelKeys(), TopLevelValues(iso, a));
  }

  // ---------------------------------------------------------------- built records are of the same make

  ghost function AlikeRel(): (Value, Value) -> bool {
    (v: Value, w: Value) => Alike(v, w)
  }

  ghost predicate Pairwise(rel: (Value, Value) -> bool, vs: seq<Value>, ws: seq<Value>) {
    |vs| == |ws| && forall i | 0 <= i < |vs| :: rel(vs[i], ws[i])
  }

  lemma PairwiseFour(
    rel: (Value, Value) -> bool,
    a0: Value, a1: Value, a2: Value, a3: Value, b0: Value, b1: Value, b2: Value, b3: Value)
    requires rel(a0, b0) && rel(a1, b1) && rel(a2, b2) && rel(a3, b3)
    ensures Pairwise(rel, [a0, a1, a2, a3], [b0, b1, b2, b3])
  {
  }

  lemma PairwiseSeven(
    rel: (Value, Value) -> bool,
    a0: Value, a1: Value, a2: Value, a3: Value, a4: Value, a5: Value, a6: Value,
    b0: Value, b1: Value, b2: Value, b3: Value, b4: Value, b5: Value, b6: Value)
    requires rel(a0, b0) && rel(a1, b1) && rel(a2, b2) && rel(a3, b3) && rel(a4, b4) && rel(a5, b5) && rel(a6, b6)
    ensures Pairwise(rel, [a0, a1, a2, a3, a4, a5, a6], [b0, b1, b2, b3, b4, b5, b6])
  {
  }

  lemma PairwiseEight(
    rel: (Value, Value) -> bool,
    a0: Value, a1: Value, a2: Value, a3: Value, a4: Value, a5: Value, a6: Value, a7: Value,
    b0: Value, b1: Value, b2: Value, b3: Value, b4: Value, b5: Value, b6: Value, b7: Value)
    requires rel(a0, b0) && rel(a1, b1) && rel(a2, b2) && rel(a3, b3)
    requires rel(a4, b4) && rel(a5, b5) && rel(a6, b6) && rel(a7, b7)
    ensures Pairwise(rel, [a0, a1, a2, a3, a4, a5, a6, a7], [b0, b1, b2, b3, b4, b5, b6, b7])
  {
  }

  lemma AlikeKeyed(ks: seq<Text>, vs: seq<Value>, ws: seq<Value>)
    requires |ks| == |vs| && PlainKeys(ks) && Pairwise(AlikeRel(), vs, ws)
    ensures AlikeRel()(Keyed(ks, vs), Keyed(ks, ws))
  {
    forall i | 0 <= i < |vs| ensures Alike(vs[i], ws[i]) {
      assert AlikeRel()(vs[i], ws[i]);
    }
  }

  ghost predicate AllLeaves(vs: seq<Value>) {
    forall i | 0 <= i < |vs| :: IsLeafText(vs[i])
  }

  lemma AlikeLeaf(v: Value, w: Value)
    requires IsLeafText(v) && IsLeafText(w)
    ensures AlikeRel()(v, w)
  {
    assert Alike(v, w);
  }

  lemma AlikeLeaves(vs: seq<Value>, ws: seq<Value>)
    requires |vs| == |ws| && AllLeaves(vs) && AllLeaves(ws)
    ensures Pairwise(AlikeRel(), vs, ws)
  {
    forall i | 0 <= i < |vs| ensures AlikeRel()(vs[i], ws[i]) {
      AlikeLeaf(vs[i], ws[i]);
    }
  }

  lemma AlikeOptions(a: Option<Text>, b: Option<Text>)
    ensures AlikeRel()(OrNull(a), OrNull(b))
  {
    AlikeLeaf(OrNull(a), OrNull(b));
  }

  lemma AlikeStrings(a: Text, b: Text)
    ensures AlikeRel()(Str(a), Str(b))
  {
    AlikeLeaf(Str(a), Str(b));
  }

  lemma AlikeKeyedLeaves(ks: seq<Text>, vs: seq<Value>, ws: seq<Value>)
    requires |ks| == |vs| == |ws| && PlainKeys(ks) && AllLeaves(vs) && AllLeaves(ws)
    ensures AlikeRel()(Keyed(ks, vs), Keyed(ks, ws))
  {
    AlikeLeaves(vs, ws);
    AlikeKeyed(ks, vs, ws);
  }

  lemma AlikeArrays(vs: seq<Value>, ws: seq<Value>)
    requires forall i, j | 0 <= i < |vs| && 0 <= j < |ws| :: AlikeRel()(vs[i], ws[j])
    ensures AlikeRel()(Arr(vs), Arr(ws))
  {
    forall i, j | 0 <= i < |vs| && 0 <= j < |ws| ensures Alike(vs[i], ws[j]) {
      assert AlikeRel()(vs[i], ws[j]);
    }
  }

  lemma AlikeById<T>(xs: seq<T>, ys: seq<T>, id: T -> Text, render: T -> Value)
    requires forall i, j | 0 <= i < |xs| && 0 <= j < |ys| :: AlikeRel()(render(xs[i]), render(ys[j]))
    ensures AlikeRel()(ById(xs, id, render), ById(ys, id, render))
  {
    var v, w := Map(render, SortBy(xs, id)), Map(render, SortBy(ys, id));
    SortMembers(xs, id);
    SortMembers(ys, id);
    forall i, j | 0 <= i < |v| && 0 <= j < |w| ensures AlikeRel()(v[i], w[j]) {
      var k :| 0 <= k < |xs| && xs[k] == SortBy(xs, id)[i];
      var m :| 0 <= m < |ys| && ys[m] == SortBy(ys, id)[j];
    }
    AlikeArrays(v, w);
  }

  lemma ReadingIsLeaf(t: Text)
    requires IsReading(t)
    ensures IsLeafText(Quantity(t))
  {
  }

  lemma ItemLeaves(r: ItemResult)
    ensures AllLeaves(ItemValues(r))
  {
  }

  lemma LeavesOfFour(a: Value, b: Value, c: Value, d: Value)
    requires IsLeafText(a) && IsLeafText(b) && IsLeafText(c) && IsLeafText(d)
    ensures AllLeaves([a, b, c, d])
  {
  }

  lemma MeasurementLeaves(r: MeasurementResult)
    requires Readable(r)
    ensures AllLeaves(MeasurementValues(r))
  {
    if r.readingNumeric.Some? {
      ReadingIsLeaf(r.readingNumeric.value);
    }
    LeavesOfFour(Str(r.id), Str(r.templateMeasurementId), ReadingValue(r), Str(r.judgement));
  }

  lemma PartLeaves(p: PartUsed)
    requires IsReading(p.quantity)
    ensures AllLeaves(PartValues(p))
  {
    ReadingIsLeaf(p.quantity);
    LeavesOfFour(Str(p.id), OrNull(p.partNo), Str(p.description), Quantity(p.quantity));
  }

  lemma AlikeIntegers(i: int, j: int)
    ensures AlikeRel()(Int(i), Int(j))
  {
    IntTextIsJsNumber(i);
    IntTextIsJsNumber(j);
    assert Alike(Int(i), Int(j));
  }

  lemma AlikeTimes(iso: DateFormat, a: Option<Instant>, b: Option<Instant>)
    ensures AlikeRel()(TimeOrNull(iso, a), TimeOrNull(iso, b))
  {
    assert Alike(TimeOrNull(iso, a), TimeOrNull(iso, b));
  }

  lemma AlikeStepValues(iso: DateFormat, s: ApprovalStep, t: ApprovalStep)
    ensures Pairwise(AlikeRel(), StepValues(iso, s), StepValues(iso, t))
  {
    AlikeStrings(s.id, t.id);
    AlikeIntegers(s.stageOrdinal, t.stageOrdinal);
    AlikeStrings(s.action, t.action);
    AlikeStrings(s.actorId, t.actorId);
    AlikeOptions(s.onBehalfOfId, t.onBehalfOfId);
    AlikeOptions(s.reason, t.reason);
    AlikeTimes(iso, Some(s.actedAt), Some(t.actedAt));
    PairwiseSeven(
      AlikeRel(),
      Str(s.id), Int(s.stageOrdinal), Str(s.action), Str(s.actorId), OrNull(s.onBehalfOfId), OrNull(s.reason),
      TimeOrNull(iso, Some(s.actedAt)),
      Str(t.id), Int(t.stageOrdinal), Str(t.action), Str(t.actorId), OrNull(t.onBehalfOfId), OrNull(t.reason),
      TimeOrNull(iso, Some(t.actedAt)));
  }

  lemma AlikeSteps(iso: DateFormat, s: ApprovalStep, t: ApprovalStep)
    ensures AlikeRel()(StepRender(iso)(s), StepRender(iso)(t))
  {
    StepNames();
    AlikeStepValues(iso, s, t);
    AlikeKeyed(StepKeys(), StepValues(iso, s), StepValues(iso, t));
  }

  lemma AlikeHeaders(a: JobHeader, b: JobHeader)
    ensures AlikeRel()(JobRecord(a), JobRecord(b))
  {
    JobNames();
    AlikeKeyedLeaves(HeaderKeys(), HeaderValues(a), HeaderValues(b));
  }

  lemma AlikeRevisions(a: TemplateRevision, b: TemplateRevision)
    ensures AlikeRel()(RevisionRecord(a), RevisionRecord(b))
  {
    JobNames();
    AlikeStrings(a.id, b.id);
    AlikeStrings(a.formTemplateId, b.formTemplateId);
    AlikeStrings(a.revisionCode, b.revisionCode);
    AlikeIntegers(a.sequenceOrdinal, b.sequenceOrdinal);
    PairwiseFour(
      AlikeRel(),
      Str(a.id), Str(a.formTemplateId), Str(a.revisionCode), Int(a.sequenceOrdinal),
      Str(b.id), Str(b.formTemplateId), Str(b.revisionCode), Int(b.sequenceOrdinal));
    AlikeKeyed(RevisionKeys(), RevisionValues(a), RevisionValues(b));
  }

  lemma PairwiseTwo(rel: (Value, Value) -> bool, a0: Value, a1: Value, b0: Value, b1: Value)
    requires rel(a0, b0) && rel(a1, b1)
    ensures Pairwise(rel, [a0, a1], [b0, b1])
  {
  }

  lemma AlikeSubmitters(iso: DateFormat, a: Submitter, b: Submitter)
    ensures AlikeRel()(SubmitterRecord(iso, a), SubmitterRecord(iso, b))
  {
    JobNames();
    AlikeOptions(a.userId, b.userId);
    AlikeTimes(iso, a.submittedAt, b.submittedAt);
    PairwiseTwo(
      AlikeRel(), OrNull(a.userId), TimeOrNull(iso, a.submittedAt), OrNull(b.userId), TimeOrNull(iso, b.submittedAt));
    AlikeKeyed(SubmitterKeys(), SubmitterValues(iso, a), SubmitterValues(iso, b));
  }

  lemma AlikeItemsById(xs: seq<ItemResult>, ys: seq<ItemResult>)
    ensures AlikeRel()(ById(xs, ItemId(), ItemRecord), ById(ys, ItemId(), ItemRecord))
  {
    RowNames();
    forall i, j | 0 <= i < |xs| && 0 <= j < |ys| ensures AlikeRel()(ItemRecord(xs[i]), ItemRecord(ys[j])) {
      ItemLeaves(xs[i]);
      ItemLeaves(ys[j]);
      AlikeKeyedLeaves(ItemKeys(), ItemValues(xs[i]), ItemValues(ys[j]));
    }
    AlikeById(xs, ys, ItemId(), ItemRecord);
  }

  lemma AlikeMeasurementsById(xs: seq<MeasurementResult>, ys: seq<MeasurementResult>)
    requires forall i | 0 <= i < |xs| :: Readable(xs[i])
    requires forall i | 0 <= i < |ys| :: Readable(ys[i])
    ensures AlikeRel()(ById(xs, MeasurementId(), MeasurementRecord), ById(ys, MeasurementId(), MeasurementRecord))
  {
    RowNames();
    forall i, j | 0 <= i < |xs| && 0 <= j < |ys|
      ensures AlikeRel()(MeasurementRecord(xs[i]), MeasurementRecord(ys[j]))
    {
      MeasurementLeaves(xs[i]);
      MeasurementLeaves(ys[j]);
      AlikeKeyedLeaves(MeasurementKeys(), MeasurementValues(xs[i]), MeasurementValues(ys[j]));
    }
    AlikeById(xs, ys, MeasurementId(), MeasurementRecord);
  }

  lemma AlikePartsById(xs: seq<PartUsed>, ys: seq<PartUsed>)
    requires forall i | 0 <= i < |xs| :: IsReading(xs[i].quantity)
    requires forall i | 0 <= i < |ys| :: IsReading(ys[i].quantity)
    ensures AlikeRel()(ById(xs, PartId(), PartRecord), ById(ys, PartId(), PartRecord))
  {
    RowNames();
    forall i, j | 0 <= i < |xs| && 0 <= j < |ys| ensures AlikeRel()(PartRecord(xs[i]), PartRecord(ys[j])) {
      PartLeaves(xs[i]);
      PartLeaves(ys[j]);
      AlikeKeyedLeaves(PartKeys(), PartValues(xs[i]), PartValues(ys[j]));
    }
    AlikeById(xs, ys, PartId(), PartRecord);
  }

  lemma AlikeAttachmentsById(xs: seq<Attachment>, ys: seq<Attachment>)
    ensures AlikeRel()(ById(xs, AttachmentId(), AttachmentRecord), ById(ys, AttachmentId(), AttachmentRecord))
  {
    RowNames();
    forall i, j | 0 <= i < |xs| && 0 <= j < |ys|
      ensures AlikeRel()(AttachmentRecord(xs[i]), AttachmentRecord(ys[j]))
    {
      AlikeKeyedLeaves(AttachmentKeys(), AttachmentValues(xs[i]), AttachmentValues(ys[j]));
    }
    AlikeById(xs, ys, AttachmentId(), AttachmentRecord);
  }

  lemma AlikeStepsById(iso: DateFormat, xs: seq<ApprovalStep>, ys: seq<ApprovalStep>)
    ensures AlikeRel()(ById(xs, StepId(), StepRender(iso)), ById(ys, StepId(), StepRender(iso)))
  {
    forall i, j | 0 <= i < |xs| && 0 <= j < |ys|
      ensures AlikeRel()(StepRender(iso)(xs[i]), StepRender(iso)(ys[j]))
    {
      AlikeSteps(iso, xs[i], ys[j]);
    }
    AlikeById(xs, ys, StepId(), StepRender(iso));
  }

  lemma AlikeTopLevel(iso: DateFormat, a: RecordInput, b: RecordInput)
    requires AllReadable(a) && AllReadable(b)
    ensures Pairwise(AlikeRel(), TopLevelValues(iso, a), TopLevelValues(iso, b))
  {
    AlikeHeaders(a.job, b.job);
    AlikeRevisions(a.revision, b.revision);
    AlikeSubmitters(iso, a.submitter, b.submitter);
    AlikeItemsById(a.itemResults, b.itemResults);
    AlikeMeasurementsById(a.measurementResults, b.measurementResults);
    AlikePartsById(a.partsUsed, b.partsUsed);
    AlikeAttachmentsById(a.attachments, b.attachments);
    AlikeStepsById(iso, a.approvalSteps, b.approvalSteps);
    PairwiseEight(
      AlikeRel(),
      JobRecord(a.job), RevisionRecord(a.revision), SubmitterRecord(iso, a.submitter),
      ById(a.itemResults, ItemId(), ItemRecord), ById(a.measurementResults, MeasurementId(), MeasurementRecord),
      ById(a.partsUsed, PartId(), PartRecord), ById(a.attachments, AttachmentId(), AttachmentRecord),
      ById(a.approvalSteps, StepId(), StepRender(iso)),
      JobRecord(b.job), RevisionRecord(b.revision), SubmitterRecord(iso, b.submitter),
      ById(b.itemResults, ItemId(), ItemRecord), ById(b.measurementResults, MeasurementId(), MeasurementRecord),
      ById(b.partsUsed, PartId(), PartRecord), ById(b.attachments, AttachmentId(), AttachmentRecord),
      ById(b.approvalSteps, StepId(), StepRender(iso)));
  }

  lemma BuiltAlike(iso: DateFormat, a: RecordInput, b: RecordInput)
    requires AllReadable(a) && AllReadable(b)
    ensures Alike(Build(iso, a).value, Build(iso, b).value)
  {
    AlikeTopLevel(iso, a, b);
    TopLevelNames();
    AlikeKeyed(TopLevelKeys(), TopLevelValues(iso, a), TopLevelValues(iso, b));
    assert AlikeRel()(Build(iso, a).value, Build(iso, b).value);
  }

  /**
   Two inputs give the same record exactly when they agree field by field up to NFC, with rows as id-keyed
   sets, text readings counting only without a numeric one, and decimals by value.
   */
  lemma SameRecordIffSameInput(nfc: Normaliser, iso: DateFormat, a: RecordInput, b: RecordInput)
    requires AllReadable(a) && AllReadable(b) && UniqueIds(a) && UniqueIds(b) && AsciiIds(a) && AsciiIds(b)
    ensures SameRecord(nfc, Build(iso, a).value, Build(iso, b).value)
            <==> SameInput(NormalInput(nfc, a), NormalInput(nfc, b))
  {
    BuiltAlike(iso, a, b);
    AlikeSameIff(nfc, Build(iso, a).value, Build(iso, b).value);
    BuildNormal(nfc, iso, a);
    BuildNormal(nfc, iso, b);
    NormalReadable(nfc, a);
    NormalReadable(nfc, b);
    BuildSameIff(iso, NormalInput(nfc, a), NormalInput(nfc, b));
  }
}

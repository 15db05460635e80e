/**
 Which writes change what is signed of a job's rows: exactly those that do not repeat, up to NFC and by
 the value of decimals, what a read showed.
 */
module RevisedRows {
  import opened Texts
  import opened CanonicalSerialiser
  import opened CanonicalJobRecord
  import opened JobRecordEquality
  import opened RecordUpToNfc
  import opened JobProtocol
  import opened RowWrites
  import opened RecordIntegrity
  import opened InterleavedSignatures

  // ---------------------------------------------------------------- the same row up to NFC

  function SameItemUpToNfc(nfc: Normaliser): (ItemResult, ItemResult) -> bool {
    (r: ItemResult, s: ItemResult) => NormalItem(nfc)(r) == NormalItem(nfc)(s)
  }

  ghost function SameMeasurementUpToNfc(nfc: Normaliser): (MeasurementResult, MeasurementResult) -> bool {
    (r: MeasurementResult, s: MeasurementResult) =>
      SameMeasurement()(NormalMeasurement(nfc)(r), NormalMeasurement(nfc)(s))
  }

  ghost function SamePartUpToNfc(nfc: Normaliser): (PartUsed, PartUsed) -> bool {
    (p: PartUsed, q: PartUsed) => SamePart()(NormalPart(nfc)(p), NormalPart(nfc)(q))
  }

  ghost function SamePartRow(nfc: Normaliser): (PartRow, PartRow) -> bool {
    (x: PartRow, y: PartRow) => SamePartUpToNfc(nfc)(PartOf()(x), PartOf()(y))
  }

  function SameAttachmentUpToNfc(nfc: Normaliser): (Attachment, Attachment) -> bool {
    (a: Attachment, b: Attachment) => NormalAttachment(nfc)(a) == NormalAttachment(nfc)(b)
  }

  /** Compared up to NFC, a measurement is as before when its value and judgement are. */
  lemma SameMeasurementUpToNfcIff(nfc: Normaliser, r: MeasurementResult, s: MeasurementResult)
    ensures
      SameMeasurementUpToNfc(nfc)(r, s) <==>
        && r.id == s.id && nfc(r.templateMeasurementId) == nfc(s.templateMeasurementId)
        && nfc(r.judgement) == nfc(s.judgement)
        && if r.readingNumeric.Some? && s.readingNumeric.Some?
           then SameNumber(r.readingNumeric.value, s.readingNumeric.value)
           else r.readingNumeric == s.readingNumeric
                && NormalOption(nfc, r.readingText) == NormalOption(nfc, s.readingText)
  {
    var a, b := NormalMeasurement(nfc)(r), NormalMeasurement(nfc)(s);
    assert SameMeasurementUpToNfc(nfc)(r, s) == SameMeasurement()(a, b);
  }

  /** Compared up to NFC, a part is as before when its texts are, and its quantity has the same value. */
  lemma SamePartUpToNfcIff(nfc: Normaliser, p: PartUsed, q: PartUsed)
    ensures
      SamePartUpToNfc(nfc)(p, q) <==>
        && p.id == q.id && NormalOption(nfc, p.partNo) == NormalOption(nfc, q.partNo)
        && nfc(p.description) == nfc(q.description) && SameNumber(p.quantity, q.quantity)
  {
    var a, b := NormalPart(nfc)(p), NormalPart(nfc)(q);
    assert SamePartUpToNfc(nfc)(p, q) == SamePart()(a, b);
  }

  lemma SameUpToNfcKeepsIds(nfc: Normaliser)
    ensures SameKeepsIds(ItemId(), SameItemUpToNfc(nfc))
    ensures SameKeepsIds(AttachmentId(), SameAttachmentUpToNfc(nfc))
  {
    forall x: ItemResult, y: ItemResult | SameItemUpToNfc(nfc)(x, y) ensures x.id == y.id {
      assert NormalItem(nfc)(x).id == x.id && NormalItem(nfc)(y).id == y.id;
    }
    forall x: Attachment, y: Attachment | SameAttachmentUpToNfc(nfc)(x, y) ensures x.id == y.id {
      assert NormalAttachment(nfc)(x).id == x.id && NormalAttachment(nfc)(y).id == y.id;
    }
  }

  lemma SameMeasurementKeepsIds(nfc: Normaliser)
    ensures SameKeepsIds(MeasurementId(), SameMeasurementUpToNfc(nfc))
  {
    forall x: MeasurementResult, y: MeasurementResult | SameMeasurementUpToNfc(nfc)(x, y)
      ensures SameMeasurementUpToNfc(nfc)(y, x) && x.id == y.id
    {
      SameMeasurementUpToNfcIff(nfc, x, y);
      SameMeasurementUpToNfcIff(nfc, y, x);
    }
  }

  lemma SamePartRowIff(nfc: Normaliser, x: PartRow, y: PartRow)
    ensures SamePartRow(nfc)(x, y) <==> SamePartUpToNfc(nfc)(x.part, y.part)
  {
    assert PartOf()(x) == x.part && PartOf()(y) == y.part;
  }

  lemma SamePartKeepsIds(nfc: Normaliser)
    ensures SameKeepsIds(PartKey(), SamePartRow(nfc))
  {
    forall x: PartRow, y: PartRow | SamePartRow(nfc)(x, y) ensures SamePartRow(nfc)(y, x) && x.part.id == y.part.id {
      SamePartRowIff(nfc, x, y);
      SamePartRowIff(nfc, y, x);
      SamePartUpToNfcIff(nfc, x.part, y.part);
      SamePartUpToNfcIff(nfc, y.part, x.part);
    }
  }

  lemma ReadableSameAsItself(nfc: Normaliser, r: MeasurementResult)
    requires Readable(r)
    ensures SameMeasurementUpToNfc(nfc)(r, r)
  {
    SameMeasurementUpToNfcIff(nfc, r, r);
  }

  lemma PartSameAsItself(nfc: Normaliser, x: PartRow)
    requires IsReading(x.part.quantity)
    ensures SamePartRow(nfc)(x, x)
  {
    SamePartRowIff(nfc, x, x);
    SamePartUpToNfcIff(nfc, x.part, x.part);
  }

  // ---------------------------------------------------------------- writes of one kind overwrite each other

  ghost predicate IsWriteOf<T(!new)>(of: JobProtocol.Capture -> seq<RowWrite<T>>, w: RowWrite<T>) {
    exists c: JobProtocol.Capture :: of(c) == [w]
  }

  lemma {:induction false} AllWritesOf<T(!new)>(ws: seq<Write>, of: JobProtocol.Capture -> seq<RowWrite<T>>)
    requires forall c :: |of(c)| <= 1
    ensures forall i | 0 <= i < |WritesOf(ws, of)| :: IsWriteOf(of, WritesOf(ws, of)[i])
  {
    if ws != [] {
      var last := ws[|ws| - 1];
      AllWritesOf(ws[..|ws| - 1], of);
      if last.Captured? && of(last.capture) != [] {
        assert of(last.capture) == [of(last.capture)[0]];
        assert IsWriteOf(of, of(last.capture)[0]);
      }
    }
  }

  lemma ItemsOverwrite(ws: seq<Write>)
    ensures Overwriting(ItemWrites(ws), ItemKey(), ItemId())
  {
    AllWritesOf(ws, ItemWriteOf());
  }

  lemma MeasurementsOverwrite(ws: seq<Write>)
    ensures Overwriting(MeasurementWrites(ws), MeasurementKey(), MeasurementId())
  {
    AllWritesOf(ws, MeasurementWriteOf());
  }

  lemma PartsOverwrite(ws: seq<Write>)
    ensures Overwriting(PartWrites(ws), PartKey(), PartKey()) && Hides(PartWrites(ws), PartHidden())
  {
    AllWritesOf(ws, PartWriteOf());
  }

  lemma AttachmentsOverwrite(ws: seq<Write>)
    ensures Overwriting(AttachmentWrites(ws), AttachmentId(), AttachmentId())
  {
    AllWritesOf(ws, AttachmentWriteOf());
  }

  // ---------------------------------------------------------------- rows of one kind

  function NoneHidden<T>(): T -> bool {
    (x: T) => false
  }

  lemma {:induction false} AllShown<T>(rows: seq<T>)
    ensures Shown(rows, NoneHidden()) == rows
  {
    if rows != [] {
      AllShown(rows[1..]);
      assert rows == [rows[0]] + rows[1..];
    }
  }

  ghost predicate Through<A(!new), B>(f: A -> B, same: (B, B) -> bool, both: (A, A) -> bool) {
    forall x: A, y: A :: both(x, y) <==> same(f(x), f(y))
  }

  lemma MappedCounterpart<A(!new), B>(f: A -> B, x: A, ys: seq<A>, same: (B, B) -> bool, both: (A, A) -> bool)
    requires Through(f, same, both)
    ensures HasCounterpart(f(x), Map(f, ys), same) <==> HasCounterpart(x, ys, both)
  {
    var ns := Map(f, ys);
    if HasCounterpart(f(x), ns, same) {
      var j :| 0 <= j < |ns| && same(f(x), ns[j]);
      assert both(x, ys[j]);
    }
    if HasCounterpart(x, ys, both) {
      var j :| 0 <= j < |ys| && both(x, ys[j]);
      assert same(f(x), ns[j]);
    }
  }

  lemma MappedCounterparts<A(!new), B>(f: A -> B, xs: seq<A>, ys: seq<A>, same: (B, B) -> bool, both: (A, A) -> bool)
    requires Through(f, same, both)
    ensures Counterparts(Map(f, xs), Map(f, ys), same) <==> Counterparts(xs, ys, both)
  {
    var ms, ns := Map(f, xs), Map(f, ys);
    forall i | 0 <= i < |xs| ensures HasCounterpart(ms[i], ns, same) <==> HasCounterpart(xs[i], ys, both) {
      MappedCounterpart(f, xs[i], ys, same, both);
    }
    if Counterparts(ms, ns, same) {
      forall i | 0 <= i < |xs| ensures HasCounterpart(xs[i], ys, both) {
        assert HasCounterpart(ms[i], ns, same);
      }
    }
    if Counterparts(xs, ys, both) {
      forall i | 0 <= i < |ms| ensures HasCounterpart(ms[i], ns, same) {
        assert HasCounterpart(xs[i], ys, both);
      }
    }
  }

  lemma MappedRows<A(!new), B>(f: A -> B, xs: seq<A>, ys: seq<A>, same: (B, B) -> bool, both: (A, A) -> bool)
    requires Through(f, same, both)
    ensures SameRows(Map(f, xs), Map(f, ys), same) <==> SameRows(xs, ys, both)
  {
    MappedCounterparts(f, xs, ys, same, both);
    MappedCounterparts(f, ys, xs, same, both);
  }

  /** Rows without hidden ones, compared through a mapping. */
  lemma PlainUnchangedIff<T(!new)>(
    rows: seq<T>, key: T -> Text, id: T -> Text, ws: seq<RowWrite<T>>, normal: T -> T, sameNormal: (T, T) -> bool,
    same: (T, T) -> bool)
    requires Overwriting(ws, key, id) && SameKeepsIds(id, same) && Through(normal, sameNormal, same)
    requires DistinctKeys(UpsertAll(rows, key, ws), key) && DistinctKeys(UpsertAll(rows, key, ws), id)
    requires forall i | 0 <= i < |rows| :: same(rows[i], rows[i])
    ensures SameRows(Map(normal, rows), Map(normal, UpsertAll(rows, key, ws)), sameNormal)
            <==> Restated(rows, key, ws, same, NoneHidden())
  {
    var after := UpsertAll(rows, key, ws);
    MappedRows(normal, rows, after, sameNormal, same);
    AllShown(rows);
    AllShown(after);
    RowsUnchangedIff(rows, key, id, ws, same, NoneHidden());
  }

  lemma ItemsUnchangedIff(nfc: Normaliser, rows: seq<ItemResult>, ws: seq<Write>)
    requires
      var after := UpsertAll(rows, ItemKey(), ItemWrites(ws));
      DistinctKeys(after, ItemKey()) && DistinctKeys(after, ItemId())
    ensures
      var after := UpsertAll(rows, ItemKey(), ItemWrites(ws));
      SameRows(Map(NormalItem(nfc), rows), Map(NormalItem(nfc), after), Same())
      <==> Restated(rows, ItemKey(), ItemWrites(ws), SameItemUpToNfc(nfc), NoneHidden())
  {
    ItemsOverwrite(ws);
    SameUpToNfcKeepsIds(nfc);
    PlainUnchangedIff(rows, ItemKey(), ItemId(), ItemWrites(ws), NormalItem(nfc), Same(), SameItemUpToNfc(nfc));
  }

  lemma AttachmentsUnchangedIff(nfc: Normaliser, rows: seq<Attachment>, ws: seq<Write>)
    requires DistinctKeys(UpsertAll(rows, AttachmentId(), AttachmentWrites(ws)), AttachmentId())
    ensures
      var after := UpsertAll(rows, AttachmentId(), AttachmentWrites(ws));
      SameRows(Map(NormalAttachment(nfc), rows), Map(NormalAttachment(nfc), after), Same())
      <==> Restated(rows, AttachmentId(), AttachmentWrites(ws), SameAttachmentUpToNfc(nfc), NoneHidden())
  {
    AttachmentsOverwrite(ws);
    SameUpToNfcKeepsIds(nfc);
    PlainUnchangedIff(rows, AttachmentId(), AttachmentId(), AttachmentWrites(ws), NormalAttachment(nfc), Same(),
                      SameAttachmentUpToNfc(nfc));
  }

  lemma MeasurementsThrough(nfc: Normaliser)
    ensures Through(NormalMeasurement(nfc), SameMeasurement(), SameMeasurementUpToNfc(nfc))
  {
  }

  lemma MeasurementsUnchangedIff(nfc: Normaliser, rows: seq<MeasurementResult>, ws: seq<Write>)
    requires forall i | 0 <= i < |rows| :: Readable(rows[i])
    requires
      var after := UpsertAll(rows, MeasurementKey(), MeasurementWrites(ws));
      DistinctKeys(after, MeasurementKey()) && DistinctKeys(after, MeasurementId())
    ensures
      var after := UpsertAll(rows, MeasurementKey(), MeasurementWrites(ws));
      SameRows(Map(NormalMeasurement(nfc), rows), Map(NormalMeasurement(nfc), after), SameMeasurement())
      <==> Restated(rows, MeasurementKey(), MeasurementWrites(ws), SameMeasurementUpToNfc(nfc), NoneHidden())
  {
    MeasurementsOverwrite(ws);
    SameMeasurementKeepsIds(nfc);
    MeasurementsThrough(nfc);
    forall i | 0 <= i < |rows| ensures SameMeasurementUpToNfc(nfc)(rows[i], rows[i]) {
      ReadableSameAsItself(nfc, rows[i]);
    }
    PlainUnchangedIff(rows, MeasurementKey(), MeasurementId(), MeasurementWrites(ws), NormalMeasurement(nfc),
                      SameMeasurement(), SameMeasurementUpToNfc(nfc));
  }

  lemma PartsThrough(nfc: Normaliser)
    ensures Through(NormalPart(nfc), SamePart(), SamePartUpToNfc(nfc))
    ensures Through(PartOf(), SamePartUpToNfc(nfc), SamePartRow(nfc))
  {
  }

  lemma MappedParts(nfc: Normaliser, xs: seq<PartRow>, ys: seq<PartRow>)
    ensures
      SameRows(Map(NormalPart(nfc), ActiveParts(xs)), Map(NormalPart(nfc), ActiveParts(ys)), SamePart())
      <==> SameRows(Shown(xs, PartHidden()), Shown(ys, PartHidden()), SamePartRow(nfc))
  {
    PartsThrough(nfc);
    MappedPartsUsed(nfc, ActiveParts(xs), ActiveParts(ys));
    MappedRows(PartOf(), Shown(xs, PartHidden()), Shown(ys, PartHidden()), SamePartUpToNfc(nfc), SamePartRow(nfc));
  }

  ghost predicate QuantitiesReadable(parts: seq<PartUsed>) {
    forall i | 0 <= i < |parts| :: IsReading(parts[i].quantity)
  }

  lemma ShownQuantities(rows: seq<PartRow>, i: nat)
    requires QuantitiesReadable(ActiveParts(rows)) && i < |rows| && rows[i].active
    ensures IsReading(rows[i].part.quantity)
  {
    var shown := Shown(rows, PartHidden());
    ShownMember(rows, PartHidden(), rows[i]);
    var k :| 0 <= k < |shown| && shown[k] == rows[i];
    assert ActiveParts(rows)[k] == rows[i].part;
  }

  lemma PartsUnchangedIff(nfc: Normaliser, rows: seq<PartRow>, ws: seq<Write>)
    requires QuantitiesReadable(ActiveParts(rows))
    requires DistinctKeys(UpsertAll(rows, PartKey(), PartWrites(ws)), PartKey())
    ensures
      var after := UpsertAll(rows, PartKey(), PartWrites(ws));
      SameRows(Map(NormalPart(nfc), ActiveParts(rows)), Map(NormalPart(nfc), ActiveParts(after)), SamePart())
      <==> Restated(rows, PartKey(), PartWrites(ws), SamePartRow(nfc), PartHidden())
  {
    var after := UpsertAll(rows, PartKey(), PartWrites(ws));
    PartsOverwrite(ws);
    SamePartKeepsIds(nfc);
    forall i: nat | i < |rows| && !PartHidden()(rows[i]) ensures SamePartRow(nfc)(rows[i], rows[i]) {
      ShownQuantities(rows, i);
      PartSameAsItself(nfc, rows[i]);
    }
    MappedParts(nfc, rows, after);
    RowsUnchangedIff(rows, PartKey(), PartKey(), PartWrites(ws), SamePartRow(nfc), PartHidden());
  }

  // ---------------------------------------------------------------- all the captured rows

  /** The newest write to each captured row repeats what a read showed: same texts up to NFC, decimals by value. */
  ghost predicate Repeats(nfc: Normaliser, snap: Job, ws: seq<Write>) {
    && Restated(snap.itemResults, ItemKey(), ItemWrites(ws), SameItemUpToNfc(nfc), NoneHidden())
    && Restated(snap.measurementResults, MeasurementKey(), MeasurementWrites(ws), SameMeasurementUpToNfc(nfc),
                NoneHidden())
    && Restated(snap.partRows, PartKey(), PartWrites(ws), SamePartRow(nfc), PartHidden())
    && Restated(snap.attachments, AttachmentId(), AttachmentWrites(ws), SameAttachmentUpToNfc(nfc), NoneHidden())
  }

  /** The captured rows of `job` are those of `snap` with the writes applied. */
  ghost predicate Rewritten(snap: Job, ws: seq<Write>, job: Job) {
    && job.itemResults == UpsertAll(snap.itemResults, ItemKey(), ItemWrites(ws))
    && job.measurementResults == UpsertAll(snap.measurementResults, MeasurementKey(), MeasurementWrites(ws))
    && job.partRows == UpsertAll(snap.partRows, PartKey(), PartWrites(ws))
    && job.attachments == UpsertAll(snap.attachments, AttachmentId(), AttachmentWrites(ws))
  }

  /** What the tables guarantee of a job's rows: primary keys, and one result for each template entry. */
  ghost predicate TableKeys(job: Job) {
    && UniqueIds(CurrentRecord(job)) && AsciiIds(CurrentRecord(job))
    && DistinctKeys(job.itemResults, ItemKey()) && DistinctKeys(job.measurementResults, MeasurementKey())
    && DistinctKeys(job.partRows, PartKey()) && AsciiKeys(job.partRows, PartKey())
  }

  /** What a read shows of the captured rows can all be built into a record. */
  ghost predicate ReadableRows(job: Job) {
    && (forall i | 0 <= i < |job.measurementResults| :: Readable(job.measurementResults[i]))
    && QuantitiesReadable(ActiveParts(job.partRows))
  }

  /** The signed rows agree up to NFC, as sets keyed by id. */
  ghost predicate SameSignedRows(nfc: Normaliser, a: Job, b: Job) {
    && SameRows(Map(NormalItem(nfc), a.itemResults), Map(NormalItem(nfc), b.itemResults), Same())
    && SameRows(Map(NormalMeasurement(nfc), a.measurementResults), Map(NormalMeasurement(nfc), b.measurementResults),
                SameMeasurement())
    && SameRows(Map(NormalPart(nfc), ActiveParts(a.partRows)), Map(NormalPart(nfc), ActiveParts(b.partRows)),
                SamePart())
    && SameRows(Map(NormalAttachment(nfc), a.attachments), Map(NormalAttachment(nfc), b.attachments), Same())
  }

  /** Writes leave the signed rows as they were exactly when they repeat them. */
  lemma SignedRowsKeptIff(nfc: Normaliser, snap: Job, ws: seq<Write>, job: Job)
    requires Rewritten(snap, ws, job) && TableKeys(job) && ReadableRows(snap)
    ensures SameSignedRows(nfc, snap, job) <==> Repeats(nfc, snap, ws)
  {
    ItemsUnchangedIff(nfc, snap.itemResults, ws);
    MeasurementsUnchangedIff(nfc, snap.measurementResults, ws);
    PartsUnchangedIff(nfc, snap.partRows, ws);
    AttachmentsUnchangedIff(nfc, snap.attachments, ws);
  }

  // ---------------------------------------------------------------- which records keep their hash

  lemma AsciiPrefix<T>(rows: seq<T>, longer: seq<T>, id: T -> Text)
    requires |rows| <= |longer| && forall i | 0 <= i < |rows| :: id(longer[i]) == id(rows[i])
    requires AsciiKeys(longer, id)
    ensures AsciiKeys(rows, id)
  {
    forall i | 0 <= i < |rows| ensures IsAscii(id(rows[i])) {
      assert IsAscii(id(longer[i]));
    }
  }

  lemma ShownDistinct<T>(rows: seq<T>, hidden: T -> bool, key: T -> Text)
    requires DistinctKeys(rows, key)
    ensures DistinctKeys(Shown(rows, hidden), key)
  {
    if rows != [] {
      ShownDistinct(rows[1..], hidden, key);
      var tail := Shown(rows[1..], hidden);
      forall i | 0 <= i < |tail| ensures key(tail[i]) != key(rows[0]) {
        ShownMember(rows[1..], hidden, tail[i]);
        var k :| 0 <= k < |rows[1..]| && rows[1..][k] == tail[i];
        assert rows[k + 1] == tail[i];
      }
    }
  }

  lemma ActivePartKeys(rows: seq<PartRow>)
    requires DistinctKeys(rows, PartKey()) && AsciiKeys(rows, PartKey())
    ensures DistinctKeys(ActiveParts(rows), PartId()) && AsciiKeys(ActiveParts(rows), PartId())
  {
    var shown := Shown(rows, PartHidden());
    ShownDistinct(rows, PartHidden(), PartKey());
    forall i | 0 <= i < |shown| ensures IsAscii(PartKey()(shown[i])) {
      ShownMember(rows, PartHidden(), shown[i]);
      var k :| 0 <= k < |rows| && rows[k] == shown[i];
    }
    forall i, j | 0 <= i < |shown| && 0 <= j < |shown| && i != j
      ensures PartId()(ActiveParts(rows)[i]) != PartId()(ActiveParts(rows)[j])
    {
      assert PartKey()(shown[i]) != PartKey()(shown[j]);
    }
  }

  /** The record shows these rows of the job. */
  ghost predicate Shows(record: RecordInput, job: Job) {
    && record.itemResults == job.itemResults && record.measurementResults == job.measurementResults
    && record.partsUsed == ActiveParts(job.partRows) && record.attachments == job.attachments
  }

  ghost predicate SameSetting(a: RecordInput, b: RecordInput) {
    a.job == b.job && a.revision == b.revision && a.approvalSteps == b.approvalSteps
  }

  lemma ResultKeys(snap: Job, ws: seq<Write>, job: Job)
    requires Rewritten(snap, ws, job) && TableKeys(job)
    ensures DistinctKeys(snap.itemResults, ItemId()) && DistinctKeys(snap.measurementResults, MeasurementId())
    ensures AsciiKeys(snap.itemResults, ItemId()) && AsciiKeys(snap.measurementResults, MeasurementId())
  {
    ItemsOverwrite(ws);
    MeasurementsOverwrite(ws);
    RowsStay(snap.itemResults, ItemKey(), ItemId(), ItemWrites(ws));
    RowsStay(snap.measurementResults, MeasurementKey(), MeasurementId(), MeasurementWrites(ws));
    DistinctPrefix(snap.itemResults, job.itemResults, ItemId());
    DistinctPrefix(snap.measurementResults, job.measurementResults, MeasurementId());
    AsciiPrefix(snap.itemResults, job.itemResults, ItemId());
    AsciiPrefix(snap.measurementResults, job.measurementResults, MeasurementId());
  }

  lemma PartKeys(snap: Job, ws: seq<Write>, job: Job)
    requires Rewritten(snap, ws, job) && TableKeys(job)
    ensures DistinctKeys(ActiveParts(snap.partRows), PartId()) && DistinctKeys(snap.attachments, AttachmentId())
    ensures AsciiKeys(ActiveParts(snap.partRows), PartId()) && AsciiKeys(snap.attachments, AttachmentId())
  {
    PartsOverwrite(ws);
    AttachmentsOverwrite(ws);
    RowsStay(snap.partRows, PartKey(), PartKey(), PartWrites(ws));
    RowsStay(snap.attachments, AttachmentId(), AttachmentId(), AttachmentWrites(ws));
    DistinctPrefix(snap.partRows, job.partRows, PartKey());
    DistinctPrefix(snap.attachments, job.attachments, AttachmentId());
    AsciiPrefix(snap.partRows, job.partRows, PartKey());
    AsciiPrefix(snap.attachments, job.attachments, AttachmentId());
    ActivePartKeys(snap.partRows);
  }

  lemma ReadKeys(snap: Job, ws: seq<Write>, job: Job, read: RecordInput)
    requires Rewritten(snap, ws, job) && TableKeys(job) && Shows(read, snap) && SameSetting(read, CurrentRecord(job))
    ensures UniqueIds(read) && AsciiIds(read)
  {
    ResultKeys(snap, ws, job);
    PartKeys(snap, ws, job);
  }

  lemma StepsSame(nfc: Normaliser, steps: seq<ApprovalStep>)
    ensures SameRows(Map(NormalStep(nfc), steps), Map(NormalStep(nfc), steps), Same())
  {
    var ns := Map(NormalStep(nfc), steps);
    forall i | 0 <= i < |ns| ensures HasCounterpart(ns[i], ns, Same()) {
      assert Same()(ns[i], ns[i]);
    }
  }

  /** In one setting, records agree exactly when submitter and signed rows do. */
  lemma SameInputIff(nfc: Normaliser, snap: Job, read: RecordInput, job: Job, held: RecordInput)
    requires Shows(read, snap) && Shows(held, job) && SameSetting(read, held)
    ensures SameInput(NormalInput(nfc, read), NormalInput(nfc, held)) <==>
      NormalSubmitter(nfc, read.submitter) == NormalSubmitter(nfc, held.submitter) && SameSignedRows(nfc, snap, job)
  {
    StepsSame(nfc, read.approvalSteps);
  }

  ghost predicate KeepsGood<T(!new)>(same: (T, T) -> bool, good: T -> bool) {
    forall x: T, y: T :: same(y, x) && good(x) ==> good(y)
  }

  lemma GoodCounterparts<T(!new)>(xs: seq<T>, ys: seq<T>, same: (T, T) -> bool, good: T -> bool)
    requires SameRows(xs, ys, same) && KeepsGood(same, good)
    requires forall i | 0 <= i < |xs| :: good(xs[i])
    ensures forall j | 0 <= j < |ys| :: good(ys[j])
  {
    forall j | 0 <= j < |ys| ensures good(ys[j]) {
      assert HasCounterpart(ys[j], xs, same);
    }
  }

  lemma MeasurementsKeepReadable(nfc: Normaliser)
    ensures KeepsGood(SameMeasurementUpToNfc(nfc), (r: MeasurementResult) => Readable(r))
  {
    forall x: MeasurementResult, y: MeasurementResult | SameMeasurementUpToNfc(nfc)(y, x) && Readable(x)
      ensures Readable(y)
    {
      SameMeasurementUpToNfcIff(nfc, y, x);
    }
  }

  lemma MappedMeasurements(nfc: Normaliser, xs: seq<MeasurementResult>, ys: seq<MeasurementResult>)
    ensures SameRows(Map(NormalMeasurement(nfc), xs), Map(NormalMeasurement(nfc), ys), SameMeasurement())
            <==> SameRows(xs, ys, SameMeasurementUpToNfc(nfc))
  {
    MeasurementsThrough(nfc);
    MappedRows(NormalMeasurement(nfc), xs, ys, SameMeasurement(), SameMeasurementUpToNfc(nfc));
  }

  lemma SameMeasurementsReadable(nfc: Normaliser, xs: seq<MeasurementResult>, ys: seq<MeasurementResult>)
    requires forall i | 0 <= i < |xs| :: Readable(xs[i])
    requires SameRows(xs, ys, SameMeasurementUpToNfc(nfc))
    ensures forall j | 0 <= j < |ys| :: Readable(ys[j])
  {
    var good := (r: MeasurementResult) => Readable(r);
    MeasurementsKeepReadable(nfc);
    GoodCounterparts(xs, ys, SameMeasurementUpToNfc(nfc), good);
    assert forall j | 0 <= j < |ys| :: good(ys[j]);
  }

  lemma PartsKeepReadable(nfc: Normaliser)
    ensures KeepsGood(SamePartUpToNfc(nfc), (p: PartUsed) => IsReading(p.quantity))
  {
    forall x: PartUsed, y: PartUsed | SamePartUpToNfc(nfc)(y, x) ensures IsReading(y.quantity) {
      SamePartUpToNfcIff(nfc, y, x);
    }
  }

  lemma MappedPartsUsed(nfc: Normaliser, xs: seq<PartUsed>, ys: seq<PartUsed>)
    ensures SameRows(Map(NormalPart(nfc), xs), Map(NormalPart(nfc), ys), SamePart())
            <==> SameRows(xs, ys, SamePartUpToNfc(nfc))
  {
    PartsThrough(nfc);
    MappedRows(NormalPart(nfc), xs, ys, SamePart(), SamePartUpToNfc(nfc));
  }

  lemma SamePartsReadable(nfc: Normaliser, xs: seq<PartUsed>, ys: seq<PartUsed>)
    requires QuantitiesReadable(xs) && SameRows(xs, ys, SamePartUpToNfc(nfc))
    ensures QuantitiesReadable(ys)
  {
    var good := (p: PartUsed) => IsReading(p.quantity);
    PartsKeepReadable(nfc);
    GoodCounterparts(xs, ys, SamePartUpToNfc(nfc), good);
    assert forall j | 0 <= j < |ys| :: good(ys[j]);
  }

  lemma SameSignedReadable(nfc: Normaliser, a: Job, b: Job)
    requires ReadableRows(a) && SameSignedRows(nfc, a, b)
    ensures ReadableRows(b)
  {
    MappedMeasurements(nfc, a.measurementResults, b.measurementResults);
    SameMeasurementsReadable(nfc, a.measurementResults, b.measurementResults);
    MappedPartsUsed(nfc, ActiveParts(a.partRows), ActiveParts(b.partRows));
    SamePartsReadable(nfc, ActiveParts(a.partRows), ActiveParts(b.partRows));
  }

  lemma ShowsReadable(record: RecordInput, job: Job)
    requires Shows(record, job)
    ensures AllReadable(record) <==> ReadableRows(job)
  {
  }

  lemma ReadableHashKeptIff(
    nfc: Normaliser, iso: DateFormat, sha256: seq<Byte> -> Digest, snap: Job, ws: seq<Write>, job: Job,
    read: RecordInput, held: RecordInput)
    requires CollisionFree(sha256) && Rewritten(snap, ws, job) && TableKeys(job) && held == CurrentRecord(job)
    requires Shows(read, snap) && SameSetting(read, held) && AllReadable(read) && AllReadable(held)
    ensures
      ContentHash(nfc, iso, sha256)(held) == ContentHash(nfc, iso, sha256)(read) <==>
        NormalSubmitter(nfc, read.submitter) == NormalSubmitter(nfc, held.submitter) && SameSignedRows(nfc, snap, job)
  {
    ReadKeys(snap, ws, job, read);
    ContentHashIffSameInput(nfc, iso, sha256, read, held);
    SameInputIff(nfc, snap, read, job, held);
  }

  lemma UnreadableHashLost(
    nfc: Normaliser, iso: DateFormat, sha256: seq<Byte> -> Digest, snap: Job, ws: seq<Write>, job: Job,
    held: RecordInput)
    requires Rewritten(snap, ws, job) && TableKeys(job) && Shows(held, job) && ReadableRows(snap) && !AllReadable(held)
    ensures ContentHash(nfc, iso, sha256)(held).None? && !Repeats(nfc, snap, ws)
  {
    UnreadableHasNoHash(nfc, iso, sha256, held);
    SignedRowsKeptIff(nfc, snap, ws, job);
    ShowsReadable(held, job);
    if SameSignedRows(nfc, snap, job) {
      SameSignedReadable(nfc, snap, job);
    }
  }

  /** Writes keep the content hash exactly when they repeat what was read and the submitter is the same. */
  lemma HashKeptIff(
    nfc: Normaliser, iso: DateFormat, sha256: seq<Byte> -> Digest, snap: Job, ws: seq<Write>, job: Job,
    read: RecordInput, held: RecordInput)
    requires CollisionFree(sha256) && Rewritten(snap, ws, job) && TableKeys(job) && held == CurrentRecord(job)
    requires Shows(read, snap) && SameSetting(read, held) && ContentHash(nfc, iso, sha256)(read).Some?
    ensures
      ContentHash(nfc, iso, sha256)(held) == ContentHash(nfc, iso, sha256)(read) <==>
        && Repeats(nfc, snap, ws)
        && NormalSubmitter(nfc, read.submitter) == NormalSubmitter(nfc, held.submitter)
  {
    ShowsReadable(read, snap);
    if !AllReadable(read) {
      UnreadableHasNoHash(nfc, iso, sha256, read);
    } else if AllReadable(held) {
      SignedRowsKeptIff(nfc, snap, ws, job);
      ReadableHashKeptIff(nfc, iso, sha256, snap, ws, job, read, held);
    } else {
      UnreadableHashLost(nfc, iso, sha256, snap, ws, job, held);
    }
  }
}

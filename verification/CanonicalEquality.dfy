/**
 When two values have the same canonical text: exactly when they are the same record, that is, equal
 up to property order, undefined-valued properties, NFC, and the stated encodings.
 */
module CanonicalEquality {
  import opened Texts
  import opened Decimals
  import opened NumberTexts
  import opened CanonicalSerialiser
  import opened JsonText
  import opened CanonicalMeaning

  predicate Live(e: Entry) {
    e.value != Undefined
  }

  // ---------------------------------------------------------------- which values are accepted

  /** The values the serialiser does not throw on. */
  ghost predicate Accepted(v: Value) {
    match v
    case Undefined => false
    case Number(n) => !n.NotFinite?
    case InvalidDate => false
    case Unsupported => false
    case Arr(elems) => forall i | 0 <= i < |elems| :: Accepted(elems[i])
    case Obj(entries) => forall i | 0 <= i < |entries| && Live(entries[i]) :: Accepted(entries[i].value)
    case _ => true
  }

  lemma {:induction false} AcceptedIff(nfc: Normaliser, v: Value)
    ensures Canonicalise(nfc, v).Ok? <==> Accepted(v)
    decreases v, 1
  {
    CanonicaliseDenotes(nfc, v);
    DenotesIff(nfc, v);
  }

  lemma ObjectDenotesIff(nfc: Normaliser, entries: seq<Entry>)
    requires forall i | 0 <= i < |entries| :: Denote(nfc, entries[i].value).Ok? <==> Accepted(entries[i].value)
    ensures Denote(nfc, Obj(entries)).Ok? <==> Accepted(Obj(entries))
  {
    var ms := Meanings(nfc, entries);
    SortMembers(ms, KeyOf());
    FieldsOfOkIff(SortBy(ms, KeyOf()));
    FieldsOfOkIff(ms);
    MeaningsMembers(nfc, entries);
    assert forall i | 0 <= i < |entries| && Live(entries[i]) :: MeaningOf(nfc, entries[i]) in ms;
  }

  lemma {:induction false} DenotesIff(nfc: Normaliser, v: Value)
    ensures Denote(nfc, v).Ok? <==> Accepted(v)
    decreases v, 0
  {
    match v
    case Number(n) => NumberTextNormal(n);
    case Arr(elems) => DenoteAllIff(nfc, elems);
    case Obj(entries) =>
      forall i | 0 <= i < |entries| ensures Denote(nfc, entries[i].value).Ok? <==> Accepted(entries[i].value) {
        DenotesIff(nfc, entries[i].value);
      }
      ObjectDenotesIff(nfc, entries);
    case _ =>
  }

  lemma {:induction false} DenoteAllIff(nfc: Normaliser, vs: seq<Value>)
    ensures DenoteAll(nfc, vs).Ok? <==> forall i | 0 <= i < |vs| :: Accepted(vs[i])
    decreases vs, 1
  {
    if vs != [] {
      DenotesIff(nfc, vs[0]);
      DenoteAllIff(nfc, vs[1..]);
      assert vs == [vs[0]] + vs[1..];
    }
  }

  lemma {:induction false} FieldsOfOkIff(ms: seq<Member<Json>>)
    ensures FieldsOf(ms).Ok? <==> forall i | 0 <= i < |ms| :: ms[i].value.Ok?
  {
    if ms != [] {
      FieldsOfOkIff(ms[1..]);
      assert ms == [ms[0]] + ms[1..];
    }
  }

  function MeaningOf(nfc: Normaliser, e: Entry): Member<Json> {
    Member(nfc(e.key), Denote(nfc, e.value))
  }

  lemma {:induction false} MeaningsMembers(nfc: Normaliser, es: seq<Entry>)
    ensures forall i | 0 <= i < |es| && Live(es[i]) :: MeaningOf(nfc, es[i]) in Meanings(nfc, es)
    ensures forall m | m in Meanings(nfc, es) ::
              exists i :: 0 <= i < |es| && Live(es[i]) && m == MeaningOf(nfc, es[i])
  {
    if es != [] {
      MeaningsMembers(nfc, es[1..]);
      forall m | m in Meanings(nfc, es)
        ensures exists i :: 0 <= i < |es| && Live(es[i]) && m == MeaningOf(nfc, es[i]) {
        if m in Meanings(nfc, es[1..]) {
          var i :| 0 <= i < |es[1..]| && Live(es[1..][i]) && m == MeaningOf(nfc, es[1..][i]);
          assert es[i + 1] == es[1..][i];
        } else {
          assert m == MeaningOf(nfc, es[0]);
        }
      }
    }
  }

  // ---------------------------------------------------------------- the same record

  predicate IsText(v: Value) {
    v.Str? || v.BigInt? || v.Timestamp?
  }

  function TextOf(nfc: Normaliser, v: Value): Text
    requires IsText(v)
  {
    match v
    case Str(s) => nfc(s)
    case BigInt(i) => IntText(i)
    case Timestamp(iso) => iso
  }

  predicate IsNumeric(v: Value) {
    (v.Number? && !v.n.NotFinite?) || v.Exact?
  }

  ghost function NumericValue(v: Value): real
    requires IsNumeric(v)
  {
    match v
    case Exact(canonical) => MatchDecimal(canonical).value.Value()
    case Number(MinusZero) => 0.0
    case Number(Finite(text)) => JsNumberValue(text)
  }

  /** Equal as records: property order, undefined properties, NFC and number notation do not count. */
  ghost predicate SameRecord(nfc: Normaliser, v: Value, w: Value)
    decreases v
  {
    if IsText(v) then IsText(w) && TextOf(nfc, v) == TextOf(nfc, w)
    else if IsNumeric(v) then IsNumeric(w) && NumericValue(v) == NumericValue(w)
    else if v.Arr? then
      && w.Arr?
      && |v.elems| == |w.elems|
      && forall i | 0 <= i < |v.elems| :: SameRecord(nfc, v.elems[i], w.elems[i])
    else if v.Obj? then
      && w.Obj?
      && (forall i | 0 <= i < |v.entries| && Live(v.entries[i]) ::
            exists j | 0 <= j < |w.entries| && Live(w.entries[j]) :: SameProperty(nfc, v.entries[i], w.entries[j]))
      && (forall j | 0 <= j < |w.entries| && Live(w.entries[j]) ::
            exists i | 0 <= i < |v.entries| && Live(v.entries[i]) :: SameProperty(nfc, v.entries[i], w.entries[j]))
    else v == w
  }

  ghost predicate SameProperty(nfc: Normaliser, e: Entry, f: Entry)
    decreases e
  {
    nfc(e.key) == nfc(f.key) && SameRecord(nfc, e.value, f.value)
  }

  /** No object inside `v` has two properties whose keys become equal under NFC. */
  ghost predicate DistinctNames(nfc: Normaliser, v: Value) {
    match v
    case Arr(elems) => forall i | 0 <= i < |elems| :: DistinctNames(nfc, elems[i])
    case Obj(es) =>
      && (forall i, j | 0 <= i < j < |es| && Live(es[i]) && Live(es[j]) :: nfc(es[i].key) != nfc(es[j].key))
      && (forall i | 0 <= i < |es| :: DistinctNames(nfc, es[i].value))
    case _ => true
  }

  // ---------------------------------------------------------------- numbers

  lemma MinusZeroValue()
    ensures IsNormalText([ZERO]) && MatchDecimal([ZERO]).value.Value() == 0.0
  {
    ZeroIsNormal();
    var d := Decimal(false, [ZERO], []);
    MatchRender(d);
    assert d.Render() == [ZERO];
    assert d.whole + d.frac == [ZERO];
    assert [ZERO][..0] == [];
    assert Nat([ZERO]) == 0;
  }

  /** The number a numeric value denotes is the one its canonical text denotes. */
  lemma NumericText(nfc: Normaliser, v: Value)
    requires IsNumeric(v)
    ensures Denote(nfc, v).Ok? && Denote(nfc, v).value.JNum?
    ensures MatchDecimal(Denote(nfc, v).value.text).value.Value() == NumericValue(v)
  {
    MinusZeroValue();
    if v.Number? {
      NumberTextNormal(v.n);
      if v.n.Finite? && HasE(v.n.text) {
        ExpandExponentialValue(v.n.text);
      }
    }
  }

  lemma NumericSameIff(nfc: Normaliser, v: Value, w: Value)
    requires IsNumeric(v) && IsNumeric(w)
    ensures Denote(nfc, v) == Denote(nfc, w) <==> NumericValue(v) == NumericValue(w)
  {
    NumericText(nfc, v);
    NumericText(nfc, w);
    NormalTextUnique(Denote(nfc, v).value.text, Denote(nfc, w).value.text);
  }

  /** Distinct integers have distinct bigint texts. */
  lemma IntTextInjective(a: int, b: int)
    requires IntText(a) == IntText(b)
    ensures a == b
  {
    SignOfText(a);
    SignOfText(b);
    if a < 0 {
      assert IntText(a)[1..] == NatText(-a) && IntText(b)[1..] == NatText(-b);
    }
  }

  lemma SignOfText(a: int)
    ensures IntText(a) != [] && (IntText(a)[0] == MINUS <==> a < 0)
  {
    if a >= 0 {
      assert IsDigit(NatText(a)[0]);
    }
  }

  // ---------------------------------------------------------------- same document, same record

  lemma {:induction false} SameDocumentIff(nfc: Normaliser, v: Value, w: Value)
    requires Accepted(v) && Accepted(w) && DistinctNames(nfc, v) && DistinctNames(nfc, w)
    ensures Denote(nfc, v) == Denote(nfc, w) <==> SameRecord(nfc, v, w)
    decreases v, 2
  {
    DenotesIff(nfc, v);
    DenotesIff(nfc, w);
    if IsNumeric(v) {
      NumericText(nfc, v);
      if IsNumeric(w) {
        NumericSameIff(nfc, v, w);
      }
    } else if v.Arr? && w.Arr? {
      SameElemsIff(nfc, v.elems, w.elems);
    } else if v.Obj? && w.Obj? {
      SameEntriesIff(nfc, v, w);
    } else if IsNumeric(w) {
      NumericText(nfc, w);
    }
  }

  lemma {:induction false} SameElemsIff(nfc: Normaliser, vs: seq<Value>, ws: seq<Value>)
    requires forall i | 0 <= i < |vs| :: Accepted(vs[i]) && DistinctNames(nfc, vs[i])
    requires forall i | 0 <= i < |ws| :: Accepted(ws[i]) && DistinctNames(nfc, ws[i])
    ensures DenoteAll(nfc, vs).Ok? && DenoteAll(nfc, ws).Ok?
    ensures DenoteAll(nfc, vs) == DenoteAll(nfc, ws)
            <==> |vs| == |ws| && forall i | 0 <= i < |vs| :: SameRecord(nfc, vs[i], ws[i])
    decreases vs, 1
  {
    DenoteAllIff(nfc, vs);
    DenoteAllIff(nfc, ws);
    if vs != [] && ws != [] {
      SameDocumentIff(nfc, vs[0], ws[0]);
      SameElemsIff(nfc, vs[1..], ws[1..]);
      DenoteAllCons(nfc, vs, ws);
      if |vs| == |ws| {
        PairsCons((v: Value, w: Value) => SameRecord(nfc, v, w), vs, ws);
      }
    }
  }

  lemma PairsCons<T>(same: (T, T) -> bool, vs: seq<T>, ws: seq<T>)
    requires |vs| == |ws| > 0
    ensures (forall i | 0 <= i < |vs| :: same(vs[i], ws[i])) <==>
      same(vs[0], ws[0]) && forall i | 0 <= i < |vs[1..]| :: same(vs[1..][i], ws[1..][i])
  {
    if same(vs[0], ws[0]) && forall i | 0 <= i < |vs[1..]| :: same(vs[1..][i], ws[1..][i]) {
      forall i | 0 <= i < |vs| ensures same(vs[i], ws[i]) {
        if i > 0 {
          assert same(vs[1..][i - 1], ws[1..][i - 1]);
        }
      }
    }
  }

  lemma DenoteAllCons(nfc: Normaliser, vs: seq<Value>, ws: seq<Value>)
    requires vs != [] && ws != [] && DenoteAll(nfc, vs).Ok? && DenoteAll(nfc, ws).Ok?
    ensures DenoteAll(nfc, vs) == DenoteAll(nfc, ws)
            <==> Denote(nfc, vs[0]) == Denote(nfc, ws[0]) && DenoteAll(nfc, vs[1..]) == DenoteAll(nfc, ws[1..])
  {
    var a, b := DenoteAll(nfc, vs).value, DenoteAll(nfc, ws).value;
    var a', b' := DenoteAll(nfc, vs[1..]).value, DenoteAll(nfc, ws[1..]).value;
    assert a[1..] == a' && b[1..] == b';
  }

  lemma {:induction false} FieldsOfInjective(ms: seq<Member<Json>>, ns: seq<Member<Json>>)
    requires FieldsOf(ms).Ok? && FieldsOf(ns).Ok? && FieldsOf(ms) == FieldsOf(ns)
    ensures ms == ns
  {
    if ms != [] {
      var a, b := FieldsOf(ms).value, FieldsOf(ns).value;
      assert ns != [];
      assert a[1..] == FieldsOf(ms[1..]).value && b[1..] == FieldsOf(ns[1..]).value;
      assert a[0] == b[0];
      FieldsOfInjective(ms[1..], ns[1..]);
      assert ms == [ms[0]] + ms[1..] && ns == [ns[0]] + ns[1..];
    }
  }

  lemma {:induction false} MeaningsDistinct(nfc: Normaliser, es: seq<Entry>)
    requires forall i, j | 0 <= i < j < |es| && Live(es[i]) && Live(es[j]) :: nfc(es[i].key) != nfc(es[j].key)
    ensures DistinctKeys(Meanings(nfc, es), KeyOf())
  {
    if es != [] {
      forall i, j | 0 <= i < j < |es[1..]| && Live(es[1..][i]) && Live(es[1..][j])
        ensures nfc(es[1..][i].key) != nfc(es[1..][j].key) {
        assert es[i + 1] == es[1..][i] && es[j + 1] == es[1..][j];
      }
      MeaningsDistinct(nfc, es[1..]);
      MeaningsMembers(nfc, es[1..]);
      if Live(es[0]) {
        var ms := Meanings(nfc, es[1..]);
        forall k | 0 <= k < |ms| ensures ms[k].key != nfc(es[0].key) {
          assert ms[k] in ms;
          var i :| 0 <= i < |es[1..]| && Live(es[1..][i]) && ms[k] == MeaningOf(nfc, es[1..][i]);
          assert es[i + 1] == es[1..][i];
        }
      }
    }
  }

  /** Objects denote the same document exactly when their members are the same set. */
  lemma SameMembersIff(nfc: Normaliser, es: seq<Entry>, fs: seq<Entry>)
    requires Denote(nfc, Obj(es)).Ok? && Denote(nfc, Obj(fs)).Ok?
    requires DistinctNames(nfc, Obj(es)) && DistinctNames(nfc, Obj(fs))
    ensures Denote(nfc, Obj(es)) == Denote(nfc, Obj(fs))
            <==> SameElements(Meanings(nfc, es), Meanings(nfc, fs))
  {
    var ms, ns := Meanings(nfc, es), Meanings(nfc, fs);
    MeaningsDistinct(nfc, es);
    MeaningsDistinct(nfc, fs);
    SortedSameIff(ms, ns, KeyOf());
    if Denote(nfc, Obj(es)) == Denote(nfc, Obj(fs)) {
      FieldsOfInjective(SortBy(ms, KeyOf()), SortBy(ns, KeyOf()));
    }
  }

  /** Every property of `es` has its counterpart in `fs`. */
  ghost predicate Matched(nfc: Normaliser, es: seq<Entry>, fs: seq<Entry>) {
    forall i | 0 <= i < |es| && Live(es[i]) :: exists j | 0 <= j < |fs| && Live(fs[j]) ::
        MeaningOf(nfc, es[i]) == MeaningOf(nfc, fs[j])
  }

  lemma MeaningIndex(nfc: Normaliser, es: seq<Entry>, m: Member<Json>) returns (i: nat)
    requires m in Meanings(nfc, es)
    ensures i < |es| && Live(es[i]) && m == MeaningOf(nfc, es[i])
  {
    MeaningsMembers(nfc, es);
    i :| 0 <= i < |es| && Live(es[i]) && m == MeaningOf(nfc, es[i]);
  }

  lemma MatchedCovers(nfc: Normaliser, es: seq<Entry>, fs: seq<Entry>)
    requires Matched(nfc, es, fs)
    ensures Within(Meanings(nfc, es), Meanings(nfc, fs))
  {
    var ms := Meanings(nfc, es);
    forall k | 0 <= k < |ms| ensures ms[k] in Meanings(nfc, fs) {
      var i := MeaningIndex(nfc, es, ms[k]);
      var j :| 0 <= j < |fs| && Live(fs[j]) && MeaningOf(nfc, es[i]) == MeaningOf(nfc, fs[j]);
      MeaningsMembers(nfc, fs);
    }
  }

  lemma CoveredMatches(nfc: Normaliser, es: seq<Entry>, fs: seq<Entry>)
    requires Within(Meanings(nfc, es), Meanings(nfc, fs))
    ensures Matched(nfc, es, fs)
  {
    forall i | 0 <= i < |es| && Live(es[i])
      ensures exists j | 0 <= j < |fs| && Live(fs[j]) :: MeaningOf(nfc, es[i]) == MeaningOf(nfc, fs[j]) {
      MeaningsMembers(nfc, es);
      assert MeaningOf(nfc, es[i]) in Meanings(nfc, es);
      var j := MeaningIndex(nfc, fs, MeaningOf(nfc, es[i]));
    }
  }

  /** Every property of `es` is the same property as one of `fs`; with `back`, seen from `fs`. */
  ghost predicate Paired(nfc: Normaliser, es: seq<Entry>, fs: seq<Entry>, back: bool) {
    forall i | 0 <= i < |es| && Live(es[i]) :: exists j | 0 <= j < |fs| && Live(fs[j]) ::
        if back then SameProperty(nfc, fs[j], es[i]) else SameProperty(nfc, es[i], fs[j])
  }

  ghost predicate MeaningDecides(nfc: Normaliser, e: Entry, f: Entry, back: bool) {
    MeaningOf(nfc, e) == MeaningOf(nfc, f)
    <==> if back then SameProperty(nfc, f, e) else SameProperty(nfc, e, f)
  }

  /** What the entries mean decides which of them are the same property. */
  lemma PairedIffMatched(nfc: Normaliser, es: seq<Entry>, fs: seq<Entry>, back: bool)
    requires forall i, j | 0 <= i < |es| && 0 <= j < |fs| && Live(es[i]) && Live(fs[j]) ::
               MeaningDecides(nfc, es[i], fs[j], back)
    ensures Paired(nfc, es, fs, back) <==> Matched(nfc, es, fs)
  {
    forall i | 0 <= i < |es| && Live(es[i])
      ensures (exists j | 0 <= j < |fs| && Live(fs[j]) :: MeaningOf(nfc, es[i]) == MeaningOf(nfc, fs[j]))
        <==> exists j | 0 <= j < |fs| && Live(fs[j]) ::
            if back then SameProperty(nfc, fs[j], es[i]) else SameProperty(nfc, es[i], fs[j]) {
      assert forall j | 0 <= j < |fs| && Live(fs[j]) :: MeaningDecides(nfc, es[i], fs[j], back);
    }
  }

  lemma SameRecordPaired(nfc: Normaliser, v: Value, w: Value)
    requires v.Obj? && w.Obj?
    ensures SameRecord(nfc, v, w)
            <==> Paired(nfc, v.entries, w.entries, false) && Paired(nfc, w.entries, v.entries, true)
  {
  }

  lemma {:induction false} SameEntriesIff(nfc: Normaliser, v: Value, w: Value)
    requires v.Obj? && w.Obj?
    requires Accepted(v) && Accepted(w) && DistinctNames(nfc, v) && DistinctNames(nfc, w)
    ensures Denote(nfc, v) == Denote(nfc, w) <==> SameRecord(nfc, v, w)
    decreases v, 1
  {
    var es, fs := v.entries, w.entries;
    forall i, j | 0 <= i < |es| && 0 <= j < |fs| && Live(es[i]) && Live(fs[j])
      ensures MeaningDecides(nfc, es[i], fs[j], false) && MeaningDecides(nfc, fs[j], es[i], true) {
      SameDocumentIff(nfc, es[i].value, fs[j].value);
    }
    PairedIffMatched(nfc, es, fs, false);
    PairedIffMatched(nfc, fs, es, true);
    SameRecordPaired(nfc, v, w);
    DenotesIff(nfc, v);
    DenotesIff(nfc, w);
    SameMatchedIff(nfc, es, fs);
  }

  lemma SameMatchedIff(nfc: Normaliser, es: seq<Entry>, fs: seq<Entry>)
    requires Denote(nfc, Obj(es)).Ok? && Denote(nfc, Obj(fs)).Ok?
    requires DistinctNames(nfc, Obj(es)) && DistinctNames(nfc, Obj(fs))
    ensures Denote(nfc, Obj(es)) == Denote(nfc, Obj(fs)) <==> Matched(nfc, es, fs) && Matched(nfc, fs, es)
  {
    SameMembersIff(nfc, es, fs);
    if Matched(nfc, es, fs) && Matched(nfc, fs, es) {
      MatchedCovers(nfc, es, fs);
      MatchedCovers(nfc, fs, es);
    }
    if Denote(nfc, Obj(es)) == Denote(nfc, Obj(fs)) {
      CoveredMatches(nfc, es, fs);
      CoveredMatches(nfc, fs, es);
    }
  }

  /** Canonical texts agree exactly on the same record. */
  lemma SameTextIffSameRecord(nfc: Normaliser, v: Value, w: Value)
    requires Accepted(v) && Accepted(w) && DistinctNames(nfc, v) && DistinctNames(nfc, w)
    ensures Canonicalise(nfc, v) == Canonicalise(nfc, w) <==> SameRecord(nfc, v, w)
  {
    SameDocumentIff(nfc, v, w);
    DenotesIff(nfc, v);
    DenotesIff(nfc, w);
    CanonicaliseDenotes(nfc, v);
    CanonicaliseDenotes(nfc, w);
    ParseOfPrint(Denote(nfc, v).value);
    ParseOfPrint(Denote(nfc, w).value);
  }
}

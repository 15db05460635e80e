/**
 Insertion order at every depth: rearranging the properties of a value and of everything in it keeps its
 canonical text exactly when, at every depth, properties whose keys NFC makes equal have equal texts.
 */
module NestedOrder {
  import opened Texts
  import opened CanonicalSerialiser
  import opened CanonicalMeaning
  import opened CanonicalEquality
  import opened PropertyOrder

  /** The same value with the properties of its objects inserted in other orders. */
  ghost predicate Rearranged(v: Value, w: Value) {
    if v.Arr? && w.Arr? then
      |v.elems| == |w.elems| && forall i | 0 <= i < |v.elems| :: Rearranged(v.elems[i], w.elems[i])
    else if v.Obj? && w.Obj? then
      exists es: seq<Entry> ::
        && multiset(es) == multiset(w.entries) && |es| == |v.entries|
        && forall i | 0 <= i < |v.entries| ::
             es[i].key == v.entries[i].key && Rearranged(v.entries[i].value, es[i].value)
    else v == w
  }

  /** Property by property rearranged, in one order of insertion. */
  ghost predicate RearrangedInPlace(es: seq<Entry>, fs: seq<Entry>) {
    |es| == |fs| && forall i | 0 <= i < |es| :: fs[i].key == es[i].key && Rearranged(es[i].value, fs[i].value)
  }

  lemma ByInsertion(es: seq<Entry>, fs: seq<Entry>, gs: seq<Entry>)
    requires RearrangedInPlace(es, fs) && multiset(fs) == multiset(gs)
    ensures Rearranged(Obj(es), Obj(gs))
  {
  }

  /** At every depth, properties whose keys collide under NFC have the same canonical text. */
  ghost predicate CollisionsAgreeBelow(nfc: Normaliser, v: Value) {
    match v
    case Arr(elems) => forall i | 0 <= i < |elems| :: CollisionsAgreeBelow(nfc, elems[i])
    case Obj(entries) =>
      && CollisionsAgree(nfc, entries)
      && forall i | 0 <= i < |entries| && Live(entries[i]) :: CollisionsAgreeBelow(nfc, entries[i].value)
    case _ => true
  }

  lemma {:induction false} RearrangedItself(v: Value)
    ensures Rearranged(v, v)
  {
    if v.Arr? {
      forall i | 0 <= i < |v.elems| ensures Rearranged(v.elems[i], v.elems[i]) {
        RearrangedItself(v.elems[i]);
      }
    } else if v.Obj? {
      forall i | 0 <= i < |v.entries| ensures Rearranged(v.entries[i].value, v.entries[i].value) {
        RearrangedItself(v.entries[i].value);
      }
      ByInsertion(v.entries, v.entries, v.entries);
    }
  }

  lemma PlaceOf(es: seq<Entry>, w: Value) returns (fs: seq<Entry>)
    requires Rearranged(Obj(es), w)
    ensures w.Obj? && RearrangedInPlace(es, fs) && multiset(fs) == multiset(w.entries)
  {
    fs :| multiset(fs) == multiset(w.entries) && |fs| == |es|
          && forall i | 0 <= i < |es| :: fs[i].key == es[i].key && Rearranged(es[i].value, fs[i].value);
  }

  lemma LiveInPlace(es: seq<Entry>, fs: seq<Entry>, i: nat)
    requires RearrangedInPlace(es, fs) && i < |es|
    ensures Live(es[i]) <==> Live(fs[i])
  {
  }

  lemma {:induction false} RearrangedAccepted(v: Value, w: Value)
    requires Rearranged(v, w) && Accepted(v)
    ensures Accepted(w)
  {
    if v.Arr? && w.Arr? {
      forall i | 0 <= i < |w.elems| ensures Accepted(w.elems[i]) {
        RearrangedAccepted(v.elems[i], w.elems[i]);
      }
    } else if v.Obj? && w.Obj? {
      var fs := PlaceOf(v.entries, w);
      forall i | 0 <= i < |fs| && Live(fs[i]) ensures Accepted(fs[i].value) {
        LiveInPlace(v.entries, fs, i);
        RearrangedAccepted(v.entries[i].value, fs[i].value);
      }
      AcceptedPermuted(fs, w.entries);
    }
  }

  // ---------------------------------------------------------------- agreeing collisions hide every order

  lemma {:induction false} SameMeaningAll(nfc: Normaliser, vs: seq<Value>, ws: seq<Value>)
    requires |vs| == |ws| && forall i | 0 <= i < |vs| :: Denote(nfc, vs[i]) == Denote(nfc, ws[i])
    requires forall i | 0 <= i < |vs| :: Accepted(vs[i]) && Accepted(ws[i])
    ensures DenoteAll(nfc, vs) == DenoteAll(nfc, ws)
  {
    if vs != [] {
      SameMeaningAll(nfc, vs[1..], ws[1..]);
    }
  }

  lemma {:induction false} SameMeanings(nfc: Normaliser, es: seq<Entry>, fs: seq<Entry>)
    requires |es| == |fs|
    requires forall i | 0 <= i < |es| :: fs[i].key == es[i].key && (Live(es[i]) <==> Live(fs[i]))
    requires forall i | 0 <= i < |es| && Live(es[i]) :: Denote(nfc, es[i].value) == Denote(nfc, fs[i].value)
    ensures Meanings(nfc, es) == Meanings(nfc, fs)
  {
    if es != [] {
      SameMeanings(nfc, es[1..], fs[1..]);
    }
  }

  lemma SameTextAs(nfc: Normaliser, v: Value, w: Value)
    requires Accepted(v) && Accepted(w)
    ensures Denote(nfc, v) == Denote(nfc, w) <==> Canonicalise(nfc, v) == Canonicalise(nfc, w)
  {
    SameTextSameMeaning(nfc, v, w);
  }

  lemma InPlaceHides(nfc: Normaliser, es: seq<Entry>, fs: seq<Entry>)
    requires RearrangedInPlace(es, fs) && Accepted(Obj(es)) && Accepted(Obj(fs)) && CollisionsAgree(nfc, es)
    requires forall i | 0 <= i < |es| && Live(es[i]) ::
      Canonicalise(nfc, es[i].value) == Canonicalise(nfc, fs[i].value)
    ensures Canonicalise(nfc, Obj(es)) == Canonicalise(nfc, Obj(fs)) && CollisionsAgree(nfc, fs)
  {
    forall i: nat | i < |es| ensures Live(es[i]) <==> Live(fs[i]) {
      LiveInPlace(es, fs, i);
    }
    forall i | 0 <= i < |es| && Live(es[i]) ensures Denote(nfc, es[i].value) == Denote(nfc, fs[i].value) {
      SameTextAs(nfc, es[i].value, fs[i].value);
    }
    SameMeanings(nfc, es, fs);
    SameTextAs(nfc, Obj(es), Obj(fs));
  }

  lemma {:induction false} AgreeingHidesOrder(nfc: Normaliser, v: Value, w: Value)
    requires Accepted(v) && Rearranged(v, w) && CollisionsAgreeBelow(nfc, v)
    ensures Canonicalise(nfc, v) == Canonicalise(nfc, w)
  {
    RearrangedAccepted(v, w);
    if v.Arr? && w.Arr? {
      forall i | 0 <= i < |v.elems| ensures Denote(nfc, v.elems[i]) == Denote(nfc, w.elems[i]) {
        AgreeingHidesOrder(nfc, v.elems[i], w.elems[i]);
        SameTextAs(nfc, v.elems[i], w.elems[i]);
      }
      SameMeaningAll(nfc, v.elems, w.elems);
      SameTextAs(nfc, v, w);
    } else if v.Obj? && w.Obj? {
      var fs := PlaceOf(v.entries, w);
      ByInsertion(v.entries, fs, fs);
      RearrangedAccepted(v, Obj(fs));
      forall i | 0 <= i < |fs| && Live(v.entries[i])
        ensures Canonicalise(nfc, v.entries[i].value) == Canonicalise(nfc, fs[i].value)
      {
        AgreeingHidesOrder(nfc, v.entries[i].value, fs[i].value);
      }
      InPlaceHides(nfc, v.entries, fs);
      AgreeingCollisionsHide(nfc, fs, w.entries);
    }
  }

  // ---------------------------------------------------------------- a hidden order means agreeing collisions

  ghost predicate OrderHidden(nfc: Normaliser, v: Value) {
    forall w | Rearranged(v, w) :: Canonicalise(nfc, w) == Canonicalise(nfc, v)
  }

  lemma PermutedIsRearranged(es: seq<Entry>, fs: seq<Entry>)
    requires multiset(fs) == multiset(es)
    ensures Rearranged(Obj(es), Obj(fs))
  {
    forall i | 0 <= i < |es| ensures Rearranged(es[i].value, es[i].value) {
      RearrangedItself(es[i].value);
    }
    ByInsertion(es, es, fs);
  }

  lemma HiddenMeansIrrelevant(nfc: Normaliser, es: seq<Entry>)
    requires OrderHidden(nfc, Obj(es))
    ensures OrderIrrelevant(nfc, es)
  {
    forall fs | multiset(fs) == multiset(es) ensures Canonicalise(nfc, Obj(fs)) == Canonicalise(nfc, Obj(es)) {
      PermutedIsRearranged(es, fs);
    }
  }

  function Replaced(es: seq<Entry>, i: nat, y: Value): seq<Entry>
    requires i < |es|
  {
    es[i := Entry(es[i].key, y)]
  }

  lemma ReplacedIsRearranged(es: seq<Entry>, i: nat, y: Value)
    requires i < |es| && Rearranged(es[i].value, y)
    ensures Rearranged(Obj(es), Obj(Replaced(es, i, y)))
  {
    var fs := Replaced(es, i, y);
    forall k | 0 <= k < |es| ensures fs[k].key == es[k].key && Rearranged(es[k].value, fs[k].value) {
      RearrangedItself(es[k].value);
    }
    ByInsertion(es, fs, fs);
  }

  lemma OneMeaning(nfc: Normaliser, e: Entry)
    requires Live(e)
    ensures Meanings(nfc, [e]) == [MeaningOf(nfc, e)]
  {
    assert [e][1..] == [];
  }

  lemma SameBagSameOne<T>(x: T, y: T, rest: multiset<T>)
    requires multiset{x} + rest == multiset{y} + rest
    ensures x == y
  {
    assert (multiset{x} + rest)[x] == 1 + rest[x];
    assert (multiset{y} + rest)[x] == rest[x] + if x == y then 1 else 0;
  }

  /** Replacing one value shows in the text of the object if it shows in the value's own text. */
  lemma ReplacedShows(nfc: Normaliser, es: seq<Entry>, i: nat, y: Value)
    requires i < |es| && Live(es[i]) && y != Undefined
    requires Accepted(Obj(es)) && Accepted(Obj(Replaced(es, i, y))) && Accepted(y)
    requires Canonicalise(nfc, Obj(es)) == Canonicalise(nfc, Obj(Replaced(es, i, y)))
    ensures Canonicalise(nfc, es[i].value) == Canonicalise(nfc, y)
  {
    var fs := Replaced(es, i, y);
    var ms, ns := Meanings(nfc, es), Meanings(nfc, fs);
    SameTextAs(nfc, Obj(es), Obj(fs));
    DenotesIff(nfc, Obj(es));
    FieldsOfInjective(SortBy(ms, KeyOf()), SortBy(ns, KeyOf()));
    SortPermutes(ms, KeyOf());
    SortPermutes(ns, KeyOf());
    MeaningsWithout(nfc, es, i);
    MeaningsWithout(nfc, fs, i);
    assert Without(es, i) == Without(fs, i);
    OneMeaning(nfc, es[i]);
    OneMeaning(nfc, fs[i]);
    SameBagSameOne(MeaningOf(nfc, es[i]), MeaningOf(nfc, fs[i]), multiset(Meanings(nfc, Without(es, i))));
    SameTextAs(nfc, es[i].value, y);
  }

  lemma LiveRearranged(v: Value, w: Value)
    requires Rearranged(v, w) && v != Undefined
    ensures w != Undefined
  {
  }

  lemma HiddenInProperty(nfc: Normaliser, es: seq<Entry>, i: nat)
    requires Accepted(Obj(es)) && OrderHidden(nfc, Obj(es)) && i < |es| && Live(es[i])
    ensures OrderHidden(nfc, es[i].value)
  {
    forall y | Rearranged(es[i].value, y) ensures Canonicalise(nfc, y) == Canonicalise(nfc, es[i].value) {
      ReplacedIsRearranged(es, i, y);
      RearrangedAccepted(Obj(es), Obj(Replaced(es, i, y)));
      RearrangedAccepted(es[i].value, y);
      LiveRearranged(es[i].value, y);
      ReplacedShows(nfc, es, i, y);
    }
  }

  lemma {:induction false} SameAllSameOne(nfc: Normaliser, vs: seq<Value>, ws: seq<Value>, i: nat)
    requires |vs| == |ws| && i < |vs| && DenoteAll(nfc, vs).Ok? && DenoteAll(nfc, vs) == DenoteAll(nfc, ws)
    ensures Denote(nfc, vs[i]) == Denote(nfc, ws[i])
  {
    DenoteAllCons(nfc, vs, ws);
    if i > 0 {
      SameAllSameOne(nfc, vs[1..], ws[1..], i - 1);
    }
  }

  lemma HiddenInElement(nfc: Normaliser, vs: seq<Value>, i: nat)
    requires Accepted(Arr(vs)) && OrderHidden(nfc, Arr(vs)) && i < |vs|
    ensures OrderHidden(nfc, vs[i])
  {
    forall y | Rearranged(vs[i], y) ensures Canonicalise(nfc, y) == Canonicalise(nfc, vs[i]) {
      var ws := vs[i := y];
      forall k | 0 <= k < |vs| ensures Rearranged(vs[k], ws[k]) {
        RearrangedItself(vs[k]);
      }
      RearrangedAccepted(Arr(vs), Arr(ws));
      RearrangedAccepted(vs[i], y);
      SameTextAs(nfc, Arr(vs), Arr(ws));
      DenotesIff(nfc, Arr(vs));
      DenotesIff(nfc, Arr(ws));
      SameAllSameOne(nfc, vs, ws, i);
      SameTextAs(nfc, vs[i], y);
    }
  }

  lemma {:induction false} HiddenAgrees(nfc: Normaliser, v: Value)
    requires Accepted(v) && OrderHidden(nfc, v)
    ensures CollisionsAgreeBelow(nfc, v)
  {
    if v.Arr? {
      forall i: nat | i < |v.elems| ensures CollisionsAgreeBelow(nfc, v.elems[i]) {
        HiddenInElement(nfc, v.elems, i);
        HiddenAgrees(nfc, v.elems[i]);
      }
    } else if v.Obj? {
      HiddenMeansIrrelevant(nfc, v.entries);
      OrderIrrelevantAgrees(nfc, v.entries);
      forall i: nat | i < |v.entries| && Live(v.entries[i]) ensures CollisionsAgreeBelow(nfc, v.entries[i].value) {
        HiddenInProperty(nfc, v.entries, i);
        HiddenAgrees(nfc, v.entries[i].value);
      }
    }
  }

  /** Every order of insertion at every depth gives the same text exactly when colliding keys agree at every depth. */
  lemma OrderHiddenIff(nfc: Normaliser, v: Value)
    requires Accepted(v)
    ensures OrderHidden(nfc, v) <==> CollisionsAgreeBelow(nfc, v)
  {
    if OrderHidden(nfc, v) {
      HiddenAgrees(nfc, v);
    }
    if CollisionsAgreeBelow(nfc, v) {
      forall w | Rearranged(v, w) ensures Canonicalise(nfc, w) == Canonicalise(nfc, v) {
        AgreeingHidesOrder(nfc, v, w);
      }
    }
  }
}

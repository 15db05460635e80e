/**
 Does an object's insertion order reach its canonical text? Exactly when two of its keys become equal
 under NFC while their values have different texts: the sort is stable and compares keys only.
 */
module PropertyOrder {
  import opened Texts
  import opened CanonicalSerialiser
  import opened JsonText
  import opened CanonicalMeaning
  import opened CanonicalEquality

  /** Properties whose keys collide under NFC have the same canonical text. */
  ghost predicate CollisionsAgree(nfc: Normaliser, es: seq<Entry>) {
    forall i, j | 0 <= i < |es| && 0 <= j < |es| && Live(es[i]) && Live(es[j]) && nfc(es[i].key) == nfc(es[j].key) ::
      Canonicalise(nfc, es[i].value) == Canonicalise(nfc, es[j].value)
  }

  // ---------------------------------------------------------------- stability of the sort

  function Having<T>(xs: seq<T>, key: T -> Text, k: Text): seq<T> {
    if xs == [] then []
    else (if key(xs[0]) == k then [xs[0]] else []) + Having(xs[1..], key, k)
  }

  lemma {:induction false} InsertHaving<T>(x: T, xs: seq<T>, key: T -> Text, k: Text)
    ensures Having(Insert(x, xs, key), key, k) == Having([x] + xs, key, k)
  {
    assert ([x] + xs)[1..] == xs;
    if xs != [] && Less(key(xs[0]), key(x)) {
      LessIrreflexive(key(x));
      InsertHaving(x, xs[1..], key, k);
      assert ([x] + xs[1..])[1..] == xs[1..];
    }
  }

  /** Elements with one key keep their arrival order. */
  lemma {:induction false} SortStable<T>(xs: seq<T>, key: T -> Text, k: Text)
    ensures Having(SortBy(xs, key), key, k) == Having(xs, key, k)
  {
    if xs != [] {
      var s := SortBy(xs[1..], key);
      SortStable(xs[1..], key, k);
      InsertHaving(xs[0], s, key, k);
      assert ([xs[0]] + s)[1..] == s;
    }
  }

  // ---------------------------------------------------------------- rearranged properties

  lemma {:induction false} MeaningsConcat(nfc: Normaliser, a: seq<Entry>, b: seq<Entry>)
    ensures Meanings(nfc, a + b) == Meanings(nfc, a) + Meanings(nfc, b)
  {
    if a == [] {
      assert a + b == b;
    } else {
      assert (a + b)[1..] == a[1..] + b;
      MeaningsConcat(nfc, a[1..], b);
    }
  }

  function Without<T>(xs: seq<T>, i: nat): seq<T>
    requires i < |xs|
  {
    xs[..i] + xs[i + 1..]
  }

  lemma WithoutMultiset<T>(xs: seq<T>, i: nat)
    requires i < |xs|
    ensures multiset(xs) == multiset{xs[i]} + multiset(Without(xs, i))
  {
    assert xs == xs[..i] + [xs[i]] + xs[i + 1..];
  }

  lemma MiddleFirst<T>(a: seq<T>, b: seq<T>, c: seq<T>)
    ensures multiset(a + (b + c)) == multiset(b) + multiset(a + c)
  {
  }

  lemma MeaningsMiddle(nfc: Normaliser, a: seq<Entry>, e: Entry, c: seq<Entry>)
    ensures multiset(Meanings(nfc, a + ([e] + c))) == multiset(Meanings(nfc, [e])) + multiset(Meanings(nfc, a + c))
  {
    MeaningsConcat(nfc, a, [e] + c);
    MeaningsConcat(nfc, [e], c);
    MeaningsConcat(nfc, a, c);
    MiddleFirst(Meanings(nfc, a), Meanings(nfc, [e]), Meanings(nfc, c));
  }

  lemma SplitAround<T>(xs: seq<T>, i: nat)
    requires i < |xs|
    ensures xs == xs[..i] + ([xs[i]] + xs[i + 1..])
  {
  }

  lemma MeaningsWithout(nfc: Normaliser, es: seq<Entry>, i: nat)
    requires i < |es|
    ensures multiset(Meanings(nfc, es)) == multiset(Meanings(nfc, [es[i]])) + multiset(Meanings(nfc, Without(es, i)))
  {
    SplitAround(es, i);
    MeaningsMiddle(nfc, es[..i], es[i], es[i + 1..]);
  }

  lemma {:induction false} MeaningsPermute(nfc: Normaliser, es: seq<Entry>, fs: seq<Entry>)
    requires multiset(es) == multiset(fs)
    ensures multiset(Meanings(nfc, es)) == multiset(Meanings(nfc, fs))
  {
    SameLength(es, fs);
    if es != [] {
      var j := IndexOf(fs, es[0], es);
      WithoutMultiset(es, 0);
      WithoutMultiset(fs, j);
      assert multiset(Without(es, 0)) == multiset(es) - multiset{es[0]};
      assert multiset(Without(fs, j)) == multiset(fs) - multiset{es[0]};
      MeaningsPermute(nfc, Without(es, 0), Without(fs, j));
      MeaningsWithout(nfc, es, 0);
      MeaningsWithout(nfc, fs, j);
    }
  }

  lemma AgreeingKeysIdentify(nfc: Normaliser, es: seq<Entry>)
    requires Accepted(Obj(es)) && CollisionsAgree(nfc, es)
    ensures KeysIdentify(Meanings(nfc, es), KeyOf())
  {
    var ms := Meanings(nfc, es);
    forall a, b | 0 <= a < |ms| && 0 <= b < |ms| && ms[a].key == ms[b].key ensures ms[a] == ms[b] {
      var i := MeaningIndex(nfc, es, ms[a]);
      var j := MeaningIndex(nfc, es, ms[b]);
      SameTextSameMeaning(nfc, es[i].value, es[j].value);
    }
  }

  lemma SameTextSameMeaning(nfc: Normaliser, v: Value, w: Value)
    requires Accepted(v) && Accepted(w)
    ensures Canonicalise(nfc, v) == Canonicalise(nfc, w) <==> Denote(nfc, v) == Denote(nfc, w)
  {
    DenotesIff(nfc, v);
    DenotesIff(nfc, w);
    CanonicaliseDenotes(nfc, v);
    CanonicaliseDenotes(nfc, w);
    ParseOfPrint(Denote(nfc, v).value);
    ParseOfPrint(Denote(nfc, w).value);
  }

  /** Moving a property to the front shows it first among those with its key. */
  lemma FrontFirst(nfc: Normaliser, es: seq<Entry>, i: nat)
    requires i < |es| && Live(es[i])
    ensures var h := Having(SortBy(Meanings(nfc, [es[i]] + Without(es, i)), KeyOf()), KeyOf(), nfc(es[i].key));
            h != [] && h[0] == MeaningOf(nfc, es[i])
  {
    var fs := [es[i]] + Without(es, i);
    assert fs[1..] == Without(es, i);
    SortStable(Meanings(nfc, fs), KeyOf(), nfc(es[i].key));
  }

  lemma AcceptedPermuted(es: seq<Entry>, fs: seq<Entry>)
    requires multiset(es) == multiset(fs) && Accepted(Obj(es))
    ensures Accepted(Obj(fs))
  {
    forall j | 0 <= j < |fs| && Live(fs[j]) ensures Accepted(fs[j].value) {
      var i := IndexOf(es, fs[j], fs);
    }
  }

  lemma CollisionShows(nfc: Normaliser, es: seq<Entry>, i: nat, j: nat)
    requires Accepted(Obj(es)) && i < |es| && j < |es| && Live(es[i]) && Live(es[j])
    requires nfc(es[i].key) == nfc(es[j].key)
    requires Canonicalise(nfc, Obj([es[i]] + Without(es, i))) == Canonicalise(nfc, Obj([es[j]] + Without(es, j)))
    ensures Canonicalise(nfc, es[i].value) == Canonicalise(nfc, es[j].value)
  {
    var a, b := [es[i]] + Without(es, i), [es[j]] + Without(es, j);
    WithoutMultiset(es, i);
    WithoutMultiset(es, j);
    AcceptedPermuted(es, a);
    AcceptedPermuted(es, b);
    SameTextSameMeaning(nfc, Obj(a), Obj(b));
    DenotesIff(nfc, Obj(a));
    FieldsOfInjective(SortBy(Meanings(nfc, a), KeyOf()), SortBy(Meanings(nfc, b), KeyOf()));
    FrontFirst(nfc, es, i);
    FrontFirst(nfc, es, j);
    CanonicaliseDenotes(nfc, es[i].value);
    CanonicaliseDenotes(nfc, es[j].value);
  }

  lemma AgreeingCollisionsHide(nfc: Normaliser, es: seq<Entry>, fs: seq<Entry>)
    requires Accepted(Obj(es)) && CollisionsAgree(nfc, es) && multiset(fs) == multiset(es)
    ensures Canonicalise(nfc, Obj(fs)) == Canonicalise(nfc, Obj(es))
  {
    MeaningsPermute(nfc, es, fs);
    AgreeingKeysIdentify(nfc, es);
    SortOrderIrrelevant(Meanings(nfc, es), Meanings(nfc, fs), KeyOf());
    CanonicaliseDenotes(nfc, Obj(es));
    CanonicaliseDenotes(nfc, Obj(fs));
  }

  ghost predicate OrderIrrelevant(nfc: Normaliser, es: seq<Entry>) {
    forall fs | multiset(fs) == multiset(es) :: Canonicalise(nfc, Obj(fs)) == Canonicalise(nfc, Obj(es))
  }

  lemma FrontIsPermutation<T>(es: seq<T>, i: nat)
    requires i < |es|
    ensures multiset([es[i]] + Without(es, i)) == multiset(es)
  {
    WithoutMultiset(es, i);
  }

  lemma OneCollisionAgrees(nfc: Normaliser, es: seq<Entry>, i: nat, j: nat)
    requires Accepted(Obj(es)) && OrderIrrelevant(nfc, es)
    requires i < |es| && j < |es| && Live(es[i]) && Live(es[j]) && nfc(es[i].key) == nfc(es[j].key)
    ensures Canonicalise(nfc, es[i].value) == Canonicalise(nfc, es[j].value)
  {
    FrontIsPermutation(es, i);
    FrontIsPermutation(es, j);
    CollisionShows(nfc, es, i, j);
  }

  lemma OrderIrrelevantAgrees(nfc: Normaliser, es: seq<Entry>)
    requires Accepted(Obj(es)) && OrderIrrelevant(nfc, es)
    ensures CollisionsAgree(nfc, es)
  {
    forall i: nat, j: nat | i < |es| && j < |es| && Live(es[i]) && Live(es[j]) && nfc(es[i].key) == nfc(es[j].key)
      ensures Canonicalise(nfc, es[i].value) == Canonicalise(nfc, es[j].value)
    {
      OneCollisionAgrees(nfc, es, i, j);
    }
  }

  /** Every insertion order gives the same text exactly when colliding keys agree. */
  lemma InsertionOrderIrrelevantIff(nfc: Normaliser, es: seq<Entry>)
    requires Accepted(Obj(es))
    ensures OrderIrrelevant(nfc, es) <==> CollisionsAgree(nfc, es)
  {
    if CollisionsAgree(nfc, es) {
      forall fs | multiset(fs) == multiset(es) ensures Canonicalise(nfc, Obj(fs)) == Canonicalise(nfc, Obj(es)) {
        AgreeingCollisionsHide(nfc, es, fs);
      }
    }
    if OrderIrrelevant(nfc, es) {
      OrderIrrelevantAgrees(nfc, es);
    }
  }

  // ---------------------------------------------------------------- two orders, two texts

  /** Two keys that NFC makes equal, with different values: each order of the two has its own text. */
  lemma CollidingOrdersDiffer(nfc: Normaliser, a: Text, b: Text)
    requires a != b && nfc(a) == nfc(b)
    ensures Canonicalise(nfc, Obj([Entry(a, Bool(true)), Entry(b, Bool(false))]))
            != Canonicalise(nfc, Obj([Entry(b, Bool(false)), Entry(a, Bool(true))]))
  {
    var x, y := Entry(a, Bool(true)), Entry(b, Bool(false));
    var es := [x, y];
    assert [es[0]] + Without(es, 0) == [x, y] && [es[1]] + Without(es, 1) == [y, x];
    if Canonicalise(nfc, Obj([x, y])) == Canonicalise(nfc, Obj([y, x])) {
      CollisionShows(nfc, es, 0, 1);
      assert false;
    }
  }

  /** What NFC does to the Kelvin sign, and to nothing else. */
  function KelvinOnly(): Normaliser {
    (t: Text) => if t == [0x212A] then [0x4B] else t
  }

  /** The Kelvin sign and the letter K are two keys of one object and one key of its canonical text. */
  lemma KelvinOrdersDiffer()
    ensures Canonicalise(KelvinOnly(), Obj([Entry([0x212A], Bool(true)), Entry([0x4B], Bool(false))]))
            != Canonicalise(KelvinOnly(), Obj([Entry([0x4B], Bool(false)), Entry([0x212A], Bool(true))]))
  {
    CollidingOrdersDiffer(KelvinOnly(), [0x212A], [0x4B]);
  }
}

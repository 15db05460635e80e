/**
 What a reader finds in a canonical text: every property of the value under its normalised name, saying what
 the value says, and the names of each object in the order of their code units.
 */
module CanonicalReading {
  import opened Wrappers
  import opened Texts
  import opened Decimals
  import opened NumberTexts
  import opened CanonicalSerialiser
  import opened JsonText
  import opened CanonicalMeaning
  import opened CanonicalEquality

  // ---------------------------------------------------------------- what a document says

  /** Decimal digits without superfluous zeros, behind a minus sign for a negative number. */
  ghost predicate Spells(t: Text, i: int) {
    if i < 0 then t != [] && t[0] == '-' as int && SpellsNat(t[1..], -i) else SpellsNat(t, i)
  }

  ghost predicate SpellsNat(t: Text, n: nat) {
    t != [] && AreDigits(t) && (|t| > 1 ==> t[0] != '0' as int) && DigitsValue(t) == n
  }

  function DigitsValue(t: Text): int {
    if t == [] then 0 else 10 * DigitsValue(t[..|t| - 1]) + (t[|t| - 1] - '0' as int)
  }

  function LiveCount(es: seq<Entry>): nat {
    if es == [] then 0 else (if es[0].value.Undefined? then 0 else 1) + LiveCount(es[1..])
  }

  /**
   The document says what the value says: strings in NFC, numbers of the same value, elements in their order, and
   one field for each property that is not undefined.
   */
  ghost predicate Says(nfc: Normaliser, v: Value, j: Json)
    decreases v
  {
    match v
    case Null => j == JNull
    case Bool(b) => j == JBool(b)
    case Str(s) => j == JStr(nfc(s))
    case Timestamp(iso) => j == JStr(iso)
    case BigInt(i) => j.JStr? && Spells(j.s, i)
    case Arr(elems) =>
      j.JArr? && |j.elems| == |elems| && forall i | 0 <= i < |elems| :: Says(nfc, elems[i], j.elems[i])
    case Obj(es) => j.JObj? && AreFields(nfc, es, j.fields)
    case _ => IsNumeric(v) && j.JNum? && MatchDecimal(j.text).value.Value() == NumericValue(v)
  }

  ghost predicate AreFields(nfc: Normaliser, es: seq<Entry>, fs: seq<Field>)
    decreases es, 2
  {
    && |fs| == LiveCount(es)
    && (forall i {:trigger HasField(nfc, es[i], fs)} | 0 <= i < |es| && !es[i].value.Undefined? ::
          HasField(nfc, es[i], fs))
    && (forall f {:trigger HasProperty(nfc, es, fs[f])} | 0 <= f < |fs| :: HasProperty(nfc, es, fs[f]))
  }

  ghost predicate HasField(nfc: Normaliser, e: Entry, fs: seq<Field>)
    decreases e, 1
  {
    exists f | 0 <= f < |fs| :: IsField(nfc, e, fs[f])
  }

  ghost predicate HasProperty(nfc: Normaliser, es: seq<Entry>, f: Field)
    decreases es, 0
  {
    exists i | 0 <= i < |es| && !es[i].value.Undefined? :: IsField(nfc, es[i], f)
  }

  ghost predicate IsField(nfc: Normaliser, e: Entry, f: Field)
    decreases e, 0
  {
    f.name == nfc(e.key) && Says(nfc, e.value, f.value)
  }

  /** The names of every object, at every depth, are in the order of their code units. */
  ghost predicate NamesInOrder(j: Json) {
    match j
    case JArr(elems) => forall i | 0 <= i < |elems| :: NamesInOrder(elems[i])
    case JObj(fs) =>
      && (forall i, k | 0 <= i < k < |fs| :: NoLater(fs[i].name, fs[k].name))
      && forall i | 0 <= i < |fs| :: NamesInOrder(fs[i].value)
    case _ => true
  }

  ghost predicate AreDigits(t: Text) {
    forall k | 0 <= k < |t| :: '0' as int <= t[k] <= '9' as int
  }

  function TenTo(n: nat): (p: int)
    ensures p > 0
  {
    if n == 0 then 1 else 10 * TenTo(n - 1)
  }

  lemma {:induction false} DigitsAreNat(t: Text)
    requires AreDigits(t)
    ensures AllDigits(t) && Nat(t) == DigitsValue(t)
  {
    if t != [] {
      DigitsAreNat(t[..|t| - 1]);
    }
  }

  lemma {:induction false} TenToIs(n: nat)
    ensures TenTo(n) == Pow10(n)
  {
    if n > 0 {
      TenToIs(n - 1);
    }
  }

  lemma RenderedParts(neg: bool, whole: Text, frac: Text)
    ensures Decimal(neg, whole, frac).Render()
            == (if neg then ['-' as int] else []) + whole + (if frac == [] then [] else ['.' as int] + frac)
  {
  }

  /** A decimal text stands for its digits, over ten for each behind the point, negative behind a minus sign. */
  lemma DecimalReads(neg: bool, whole: Text, frac: Text)
    requires AreDigits(whole) && AreDigits(frac) && whole != []
    ensures
      var t := (if neg then ['-' as int] else []) + whole + (if frac == [] then [] else ['.' as int] + frac);
      var magnitude := DigitsValue(whole + frac) as real / TenTo(|frac|) as real;
      && MatchDecimal(t).Some?
      && MatchDecimal(t).value.Value() == if neg then -magnitude else magnitude
  {
    DigitsAreNat(whole);
    DigitsAreNat(frac);
    DigitsAreNat(whole + frac);
    TenToIs(|frac|);
    RenderedParts(neg, whole, frac);
    MatchRender(Decimal(neg, whole, frac));
  }

  function TimesTen(v: real, n: nat, up: bool): real {
    if up then v * TenTo(n) as real else v / TenTo(n) as real
  }

  lemma ScaledValue(m: Decimal, n: nat, up: bool)
    requires m.Valid()
    ensures Exponential(m, Exponent(n, up)).Value() == TimesTen(m.Value(), n, up)
  {
    TenToIs(n);
    if n == 0 {
      assert m.Value() * 1.0 == m.Value() / 1.0;
    }
  }

  /** An exponential text stands for its mantissa times or over that power of ten. */
  lemma ExponentialReads(mantissa: Text, up: bool, digits: Text)
    requires MatchDecimal(mantissa).Some? && AreDigits(digits) && digits != []
    ensures DigitsValue(digits) >= 0
    ensures
      var x := MatchExponential(mantissa + (['e' as int, if up then '+' as int else '-' as int] + digits));
      x.Some? && x.value.Value() == TimesTen(MatchDecimal(mantissa).value.Value(), DigitsValue(digits), up)
  {
    DigitsAreNat(digits);
    MantissaPlain(mantissa);
    ExponentialParts(mantissa, up, digits);
    ScaledValue(MatchDecimal(mantissa).value, Nat(digits), up);
  }

  lemma {:induction false} NatTextSpells(n: nat)
    ensures SpellsNat(NatText(n), n)
  {
    var t := NatText(n);
    if n >= 10 {
      NatTextSpells(n / 10);
      assert t[..|t| - 1] == NatText(n / 10);
      assert NatText(n / 10)[0] == t[0];
      LeadingDigit(n / 10);
    } else {
      assert t[..0] == [];
    }
  }

  lemma {:induction false} LeadingDigit(n: nat)
    requires n > 0
    ensures NatText(n)[0] != '0' as int
  {
    if n >= 10 {
      LeadingDigit(n / 10);
    }
  }

  lemma IntTextSpells(i: int)
    ensures Spells(IntText(i), i)
  {
    if i < 0 {
      NatTextSpells(-i);
      assert IntText(i)[1..] == NatText(-i);
    } else {
      NatTextSpells(i);
    }
  }

  // ---------------------------------------------------------------- the document denoted says it

  lemma {:induction false} FieldsAt(ms: seq<Member<Json>>, i: nat)
    requires FieldsOf(ms).Ok?
    ensures |FieldsOf(ms).value| == |ms|
    ensures i < |ms| ==>
      ms[i].value.Ok? && FieldsOf(ms).value[i] == Field(ms[i].key, ms[i].value.value)
  {
    if ms != [] {
      FieldsAt(ms[1..], if i > 0 then i - 1 else 0);
    }
  }

  lemma {:induction false} MeaningsCount(nfc: Normaliser, es: seq<Entry>)
    ensures |Meanings(nfc, es)| == LiveCount(es)
  {
    if es != [] {
      MeaningsCount(nfc, es[1..]);
    }
  }

  lemma {:induction false} DenotedAt(nfc: Normaliser, vs: seq<Value>, i: nat)
    requires DenoteAll(nfc, vs).Ok?
    ensures |DenoteAll(nfc, vs).value| == |vs|
    ensures i < |vs| ==> Denote(nfc, vs[i]) == Ok(DenoteAll(nfc, vs).value[i])
  {
    if vs != [] {
      DenotedAt(nfc, vs[1..], if i > 0 then i - 1 else 0);
    }
  }

  /** Each field is a property, and each property a field. */
  lemma FieldIsProperty(nfc: Normaliser, es: seq<Entry>, fs: seq<Field>, f: nat) returns (i: nat)
    requires FieldsOf(SortBy(Meanings(nfc, es), KeyOf())) == Ok(fs) && f < |fs|
    ensures i < |es| && Live(es[i]) && fs[f].name == nfc(es[i].key) && Denote(nfc, es[i].value) == Ok(fs[f].value)
  {
    var ms := Meanings(nfc, es);
    var sorted := SortBy(ms, KeyOf());
    SortMembers(ms, KeyOf());
    FieldsAt(sorted, f);
    assert sorted[f] in ms;
    i := MeaningIndex(nfc, es, sorted[f]);
  }

  lemma PropertyIsField(nfc: Normaliser, es: seq<Entry>, fs: seq<Field>, i: nat) returns (f: nat)
    requires FieldsOf(SortBy(Meanings(nfc, es), KeyOf())) == Ok(fs) && i < |es| && Live(es[i])
    ensures f < |fs| && fs[f].name == nfc(es[i].key) && Denote(nfc, es[i].value) == Ok(fs[f].value)
  {
    var ms := Meanings(nfc, es);
    var sorted := SortBy(ms, KeyOf());
    SortMembers(ms, KeyOf());
    MeaningsMembers(nfc, es);
    var m := MeaningOf(nfc, es[i]);
    assert m in ms;
    var p :| 0 <= p < |ms| && ms[p] == m;
    assert ms[p] in sorted;
    f :| 0 <= f < |sorted| && sorted[f] == m;
    FieldsAt(sorted, f);
  }

  lemma FieldsInOrder(nfc: Normaliser, es: seq<Entry>, fs: seq<Field>)
    requires FieldsOf(SortBy(Meanings(nfc, es), KeyOf())) == Ok(fs)
    ensures |fs| == LiveCount(es)
    ensures forall i, k | 0 <= i < k < |fs| :: NoLater(fs[i].name, fs[k].name)
  {
    var ms := Meanings(nfc, es);
    var sorted := SortBy(ms, KeyOf());
    MeaningsCount(nfc, es);
    SortMembers(ms, KeyOf());
    SortedInOrder(ms, KeyOf());
    FieldsAt(sorted, 0);
    forall i, k | 0 <= i < k < |fs| ensures NoLater(fs[i].name, fs[k].name) {
      FieldsAt(sorted, i);
      FieldsAt(sorted, k);
      assert NoLater(KeyOf()(sorted[i]), KeyOf()(sorted[k]));
    }
  }

  lemma LeafSays(nfc: Normaliser, v: Value)
    requires !v.Arr? && !v.Obj? && Denote(nfc, v).Ok?
    ensures Says(nfc, v, Denote(nfc, v).value) && NamesInOrder(Denote(nfc, v).value)
  {
    if IsNumeric(v) {
      NumericText(nfc, v);
    }
    if v.BigInt? {
      IntTextSpells(v.i);
    }
    if v.Number? {
      NumberTextNormal(v.n);
    }
  }

  lemma {:induction false} DenoteSays(nfc: Normaliser, v: Value)
    requires Denote(nfc, v).Ok?
    ensures Says(nfc, v, Denote(nfc, v).value) && NamesInOrder(Denote(nfc, v).value)
    decreases v
  {
    match v
    case Arr(elems) => ElementsSay(nfc, v);
    case Obj(_) => PropertiesSay(nfc, v);
    case _ => LeafSays(nfc, v);
  }

  lemma {:induction false} ElementsSay(nfc: Normaliser, v: Value)
    requires v.Arr? && Denote(nfc, v).Ok?
    ensures Says(nfc, v, Denote(nfc, v).value) && NamesInOrder(Denote(nfc, v).value)
    decreases v, 0
  {
    var js := DenoteAll(nfc, v.elems).value;
    DenotedAt(nfc, v.elems, 0);
    forall i | 0 <= i < |v.elems| ensures Says(nfc, v.elems[i], js[i]) && NamesInOrder(js[i]) {
      DenotedAt(nfc, v.elems, i);
      DenoteSays(nfc, v.elems[i]);
    }
  }

  lemma {:induction false} PropertiesSay(nfc: Normaliser, v: Value)
    requires v.Obj? && Denote(nfc, v).Ok?
    ensures Says(nfc, v, Denote(nfc, v).value) && NamesInOrder(Denote(nfc, v).value)
    decreases v, 0
  {
    var es := v.entries;
    DenoteObject(nfc, es);
    var fs := FieldsOf(SortBy(Meanings(nfc, es), KeyOf())).value;
    FieldsInOrder(nfc, es, fs);
    forall i | 0 <= i < |es| && !es[i].value.Undefined? ensures HasField(nfc, es[i], fs) {
      var f := PropertyIsField(nfc, es, fs, i);
      DenoteSays(nfc, es[i].value);
      assert IsField(nfc, es[i], fs[f]);
    }
    forall f | 0 <= f < |fs|
      ensures HasProperty(nfc, es, fs[f])
      ensures NamesInOrder(fs[f].value)
    {
      var i := FieldIsProperty(nfc, es, fs, f);
      DenoteSays(nfc, es[i].value);
      assert IsField(nfc, es[i], fs[f]);
    }
    assert AreFields(nfc, es, fs);
  }

  /** Reading the text of an accepted value finds what the value says, names in the order of their code units. */
  lemma TextSays(nfc: Normaliser, v: Value)
    requires Accepted(v)
    ensures Canonicalise(nfc, v).Ok? && Parse(Canonicalise(nfc, v).value).Some?
    ensures
      var j := Parse(Canonicalise(nfc, v).value).value;
      Says(nfc, v, j) && NamesInOrder(j)
  {
    DenotesIff(nfc, v);
    CanonicalTextParses(nfc, v);
    DenoteSays(nfc, v);
  }

  // ---------------------------------------------------------------- colliding names

  function FieldsNamed(fs: seq<Field>, name: Text): seq<Field> {
    if fs == [] then [] else (if fs[0].name == name then [fs[0]] else []) + FieldsNamed(fs[1..], name)
  }

  /** The properties under a name, in the order of insertion. */
  function PropertiesNamed(nfc: Normaliser, es: seq<Entry>, name: Text): seq<Entry> {
    if es == [] then []
    else
      (if !es[0].value.Undefined? && nfc(es[0].key) == name then [es[0]] else [])
      + PropertiesNamed(nfc, es[1..], name)
  }

  lemma {:induction false} NamedMeanings(nfc: Normaliser, es: seq<Entry>, name: Text)
    ensures OfKey(Meanings(nfc, es), KeyOf(), name) == Meanings(nfc, PropertiesNamed(nfc, es, name))
  {
    if es != [] {
      NamedMeanings(nfc, es[1..], name);
      var rest := PropertiesNamed(nfc, es[1..], name);
      assert ([es[0]] + rest)[1..] == rest && [] + rest == rest;
    }
  }

  lemma FieldsCons(m: Member<Json>, ms: seq<Member<Json>>)
    requires m.value.Ok? && FieldsOf(ms).Ok?
    ensures FieldsOf([m] + ms) == Ok([Field(m.key, m.value.value)] + FieldsOf(ms).value)
  {
    assert ([m] + ms)[1..] == ms;
  }

  lemma NamedCons(f: Field, fs: seq<Field>, name: Text)
    ensures FieldsNamed([f] + fs, name) == (if f.name == name then [f] else []) + FieldsNamed(fs, name)
  {
    assert ([f] + fs)[1..] == fs;
  }

  lemma {:induction false} NamedFields(ms: seq<Member<Json>>, name: Text)
    requires FieldsOf(ms).Ok?
    ensures FieldsOf(OfKey(ms, KeyOf(), name)) == Ok(FieldsNamed(FieldsOf(ms).value, name))
  {
    if ms != [] {
      var m, tail := ms[0], ms[1..];
      NamedFields(tail, name);
      NamedCons(Field(m.key, m.value.value), FieldsOf(tail).value, name);
      if m.key == name {
        FieldsCons(m, OfKey(tail, KeyOf(), name));
      } else {
        var fs := FieldsOf(tail).value;
        assert [] + OfKey(tail, KeyOf(), name) == OfKey(tail, KeyOf(), name);
        assert [] + FieldsNamed(fs, name) == FieldsNamed(fs, name);
        assert FieldsOf(ms).value == [Field(m.key, m.value.value)] + fs;
      }
    }
  }

  lemma {:induction false} MeaningAt(nfc: Normaliser, es: seq<Entry>, i: nat)
    requires forall k | 0 <= k < |es| :: Live(es[k])
    ensures |Meanings(nfc, es)| == |es| && (i < |es| ==> Meanings(nfc, es)[i] == MeaningOf(nfc, es[i]))
  {
    if es != [] {
      MeaningAt(nfc, es[1..], if i > 0 then i - 1 else 0);
    }
  }

  lemma {:induction false} NamedAreLive(nfc: Normaliser, es: seq<Entry>, name: Text)
    ensures forall k | 0 <= k < |PropertiesNamed(nfc, es, name)| :: Live(PropertiesNamed(nfc, es, name)[k])
  {
    if es != [] {
      NamedAreLive(nfc, es[1..], name);
    }
  }

  /** In the text of an object, properties whose keys collide under NFC stand in the order of insertion. */
  lemma CollidingInOrder(nfc: Normaliser, es: seq<Entry>, name: Text)
    requires Accepted(Obj(es))
    ensures Canonicalise(nfc, Obj(es)).Ok?
    ensures
      var j := Parse(Canonicalise(nfc, Obj(es)).value);
      && j.Some? && j.value.JObj?
      && var fields, properties := FieldsNamed(j.value.fields, name), PropertiesNamed(nfc, es, name);
         |fields| == |properties| && forall i | 0 <= i < |fields| :: IsField(nfc, properties[i], fields[i])
  {
    DenotesIff(nfc, Obj(es));
    CanonicalTextParses(nfc, Obj(es));
    DenoteObject(nfc, es);
    var fs := FieldsOf(SortBy(Meanings(nfc, es), KeyOf())).value;
    NamedSay(nfc, es, fs, name);
  }

  lemma NamedSay(nfc: Normaliser, es: seq<Entry>, fs: seq<Field>, name: Text)
    requires FieldsOf(SortBy(Meanings(nfc, es), KeyOf())) == Ok(fs)
    ensures
      var fields, properties := FieldsNamed(fs, name), PropertiesNamed(nfc, es, name);
      |fields| == |properties| && forall i | 0 <= i < |fields| :: IsField(nfc, properties[i], fields[i])
  {
    var ms := Meanings(nfc, es);
    var fields, properties := FieldsNamed(fs, name), PropertiesNamed(nfc, es, name);
    NamedFields(SortBy(ms, KeyOf()), name);
    SortStable(ms, KeyOf(), name);
    NamedMeanings(nfc, es, name);
    NamedAreLive(nfc, es, name);
    MeaningAt(nfc, properties, 0);
    FieldsAt(Meanings(nfc, properties), 0);
    forall i | 0 <= i < |fields| ensures IsField(nfc, properties[i], fields[i]) {
      MeaningAt(nfc, properties, i);
      FieldsAt(Meanings(nfc, properties), i);
      DenoteSays(nfc, properties[i].value);
    }
  }

  // ---------------------------------------------------------------- reading an object by its names

  /** The object has a field of that name, and every one of that name is as asked. */
  ghost predicate ReadsAt(j: Json, name: string, good: Json -> bool) {
    && j.JObj? && (exists f | 0 <= f < |j.fields| :: IsNamed(j.fields[f].name, name))
    && forall f | 0 <= f < |j.fields| && IsNamed(j.fields[f].name, name) :: good(j.fields[f].value)
  }

  ghost function Saying(nfc: Normaliser, v: Value): Json -> bool {
    (x: Json) => Says(nfc, v, x)
  }

  /** The entry of that name, which no other entry has. */
  ghost predicate IsEntry(es: seq<Entry>, k: nat, name: string) {
    && k < |es| && IsNamed(es[k].key, name)
    && forall i | 0 <= i < |es| && i != k :: es[i].key != es[k].key
  }

  ghost predicate PlainEntries(es: seq<Entry>) {
    forall i | 0 <= i < |es| :: IsAscii(es[i].key) && !es[i].value.Undefined?
  }

  lemma SaysEntry(nfc: Normaliser, es: seq<Entry>, x: Json, k: nat) returns (f: nat)
    requires x.JObj? && AreFields(nfc, es, x.fields) && k < |es| && !es[k].value.Undefined?
    ensures f < |x.fields| && IsField(nfc, es[k], x.fields[f])
  {
    assert HasField(nfc, es[k], x.fields);
    f :| 0 <= f < |x.fields| && IsField(nfc, es[k], x.fields[f]);
  }

  lemma SaysField(nfc: Normaliser, es: seq<Entry>, x: Json, f: nat) returns (i: nat)
    requires x.JObj? && AreFields(nfc, es, x.fields) && f < |x.fields|
    ensures i < |es| && IsField(nfc, es[i], x.fields[f])
  {
    assert HasProperty(nfc, es, x.fields[f]);
    i :| 0 <= i < |es| && !es[i].value.Undefined? && IsField(nfc, es[i], x.fields[f]);
  }

  lemma SameName(a: Text, b: Text, name: string)
    requires IsNamed(a, name) && IsNamed(b, name)
    ensures a == b
  {
  }

  /** Whatever is read at a name is what the value under that name says. */
  lemma EntryReads(nfc: Normaliser, es: seq<Entry>, x: Json, k: nat, name: string)
    requires x.JObj? && AreFields(nfc, es, x.fields) && PlainEntries(es) && IsEntry(es, k, name)
    ensures ReadsAt(x, name, Saying(nfc, es[k].value))
  {
    var f := SaysEntry(nfc, es, x, k);
    AsciiKept(nfc, es[k].key);
    assert IsNamed(x.fields[f].name, name);
    forall g: nat | g < |x.fields| && IsNamed(x.fields[g].name, name)
      ensures Says(nfc, es[k].value, x.fields[g].value)
    {
      var i := SaysField(nfc, es, x, g);
      AsciiKept(nfc, es[i].key);
      SameName(es[i].key, es[k].key, name);
    }
  }

  lemma AsciiKept(nfc: Normaliser, t: Text)
    requires IsAscii(t)
    ensures nfc(t) == t
  {
    assert IsNormaliser(nfc);
  }

  lemma {:induction false} AllLive(es: seq<Entry>)
    requires forall i | 0 <= i < |es| :: !es[i].value.Undefined?
    ensures LiveCount(es) == |es|
  {
    if es != [] {
      AllLive(es[1..]);
    }
  }
}

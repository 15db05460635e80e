/**
 What a canonical text says: the JSON document a value denotes, the equivalence of values that the
 serialiser is meant to respect, and the theorem that texts agree exactly on equivalent values.
 */
module CanonicalMeaning {
  import opened Wrappers
  import opened Texts
  import opened Decimals
  import opened NumberTexts
  import opened CanonicalSerialiser
  import opened JsonText

  // ---------------------------------------------------------------- the document denoted

  function Denote(nfc: Normaliser, v: Value): Result<Json, Error>
    decreases v, 0
  {
    match v
    case Undefined => Err(UndefinedValue)
    case Null => Ok(JNull)
    case Bool(b) => Ok(JBool(b))
    case Str(s) => Ok(JStr(nfc(s)))
    case Number(n) =>
      (match CanonicalNumber(n)
       case Ok(t) => NumberTextNormal(n); Ok(JNum(t))
       case Err(e) => Err(e))
    case BigInt(i) => Ok(JStr(IntText(i)))
    case InvalidDate => Err(InvalidTimestamp)
    case Timestamp(iso) => Ok(JStr(iso))
    case Exact(canonical) => Ok(JNum(canonical))
    case Arr(elems) =>
      (match DenoteAll(nfc, elems)
       case Ok(js) => Ok(JArr(js))
       case Err(e) => Err(e))
    case Obj(entries) =>
      (match FieldsOf(SortBy(Meanings(nfc, entries), KeyOf()))
       case Ok(fs) => Ok(JObj(fs))
       case Err(e) => Err(e))
    case Unsupported => Err(UnsupportedType)
  }

  function DenoteAll(nfc: Normaliser, vs: seq<Value>): (r: Result<seq<Json>, Error>)
    decreases vs, 1
  {
    if vs == [] then Ok([])
    else if vs[0] == Undefined then Err(UndefinedElement)
    else
      match Denote(nfc, vs[0])
      case Err(e) => Err(e)
      case Ok(j) =>
        match DenoteAll(nfc, vs[1..])
        case Err(e) => Err(e)
        case Ok(js) => Ok([j] + js)
  }

  function Meanings(nfc: Normaliser, entries: seq<Entry>): seq<Member<Json>>
    decreases entries, 1
  {
    if entries == [] then []
    else if entries[0].value == Undefined then Meanings(nfc, entries[1..])
    else [Member(nfc(entries[0].key), Denote(nfc, entries[0].value))] + Meanings(nfc, entries[1..])
  }

  function FieldsOf(ms: seq<Member<Json>>): Result<seq<Field>, Error> {
    if ms == [] then Ok([])
    else
      match ms[0].value
      case Err(e) => Err(e)
      case Ok(j) =>
        match FieldsOf(ms[1..])
        case Err(e) => Err(e)
        case Ok(fs) => Ok([Field(ms[0].key, j)] + fs)
  }

  lemma NumberTextNormal(n: JsNumber)
    ensures CanonicalNumber(n).Ok? <==> !n.NotFinite?
    ensures CanonicalNumber(n).Ok? ==> IsNormalText(CanonicalNumber(n).value)
  {
    ZeroIsNormal();
    if n.Finite? && HasE(n.text) {
      ExpandExponentialNormal(n.text);
    }
  }

  // ---------------------------------------------------------------- the text is the document's text

  function Printed(r: Result<Json, Error>): Result<Text, Error> {
    match r
    case Ok(j) => Ok(Print(j))
    case Err(e) => Err(e)
  }

  function PrintMember(): Member<Json> -> Member<Text> {
    (m: Member<Json>) => Member(m.key, Printed(m.value))
  }

  lemma LeafDenotes(nfc: Normaliser, v: Value)
    requires !v.Arr? && !v.Obj?
    ensures Canonicalise(nfc, v) == Printed(Denote(nfc, v))
  {
    match v
    case BigInt(i) => QuotedDenotes(nfc, IntText(i));
    case Timestamp(iso) => QuotedDenotes(nfc, iso);
    case Str(s) => assert JsonString(nfc(s)) + [] == JsonString(nfc(s));
    case Number(n) =>
      NumberTextNormal(n);
      if CanonicalNumber(n).Ok? {
        assert CanonicalNumber(n).value + [] == CanonicalNumber(n).value;
      }
    case Exact(canonical) => assert canonical + [] == canonical;
    case Null => assert Ascii("null") + [] == Ascii("null");
    case Bool(b) =>
      var word := if b then Ascii("true") else Ascii("false");
      assert word + [] == word;
    case _ =>
  }

  lemma QuotedDenotes(nfc: Normaliser, s: AsciiText)
    ensures CanonicalString(nfc, s) == Print(JStr(s))
  {
    assert nfc(s) == s;
    assert JsonString(s) + [] == JsonString(s);
  }

  function ObjectText(parts: Result<seq<Text>, Error>): Result<Text, Error> {
    match parts
    case Ok(texts) => Ok([LBRACE] + Join(texts) + [RBRACE])
    case Err(e) => Err(e)
  }

  function ObjectJson(fields: Result<seq<Field>, Error>): Result<Json, Error> {
    match fields
    case Ok(fs) => Ok(JObj(fs))
    case Err(e) => Err(e)
  }

  lemma CanonicaliseObject(nfc: Normaliser, entries: seq<Entry>)
    ensures Canonicalise(nfc, Obj(entries)) == ObjectText(MemberTexts(nfc, SortBy(Members(nfc, entries), KeyOf())))
  {
  }

  lemma DenoteObject(nfc: Normaliser, entries: seq<Entry>)
    ensures Denote(nfc, Obj(entries)) == ObjectJson(FieldsOf(SortBy(Meanings(nfc, entries), KeyOf())))
  {
  }

  lemma ObjectTextPrinted(nfc: Normaliser, ms: seq<Member<Json>>)
    requires forall i | 0 <= i < |ms| :: nfc(ms[i].key) == ms[i].key
    ensures ObjectText(MemberTexts(nfc, Map(PrintMember(), ms))) == Printed(ObjectJson(FieldsOf(ms)))
  {
    MemberTextsPrint(nfc, ms);
  }

  lemma ObjectDenotes(nfc: Normaliser, entries: seq<Entry>)
    requires Members(nfc, entries) == Map(PrintMember(), Meanings(nfc, entries))
    ensures Canonicalise(nfc, Obj(entries)) == Printed(Denote(nfc, Obj(entries)))
  {
    var ms := Meanings(nfc, entries);
    SortMap(PrintMember(), ms, KeyOf(), KeyOf());
    SortedKeysNormal(nfc, entries);
    ObjectTextPrinted(nfc, SortBy(ms, KeyOf()));
    CanonicaliseObject(nfc, entries);
    DenoteObject(nfc, entries);
  }

  lemma SortedKeysNormal(nfc: Normaliser, entries: seq<Entry>)
    ensures var sorted := SortBy(Meanings(nfc, entries), KeyOf());
            forall i | 0 <= i < |sorted| :: nfc(sorted[i].key) == sorted[i].key
  {
    var ms := Meanings(nfc, entries);
    var sorted := SortBy(ms, KeyOf());
    MeaningKeys(nfc, entries);
    SortMembers(ms, KeyOf());
    forall i | 0 <= i < |sorted| ensures nfc(sorted[i].key) == sorted[i].key {
      assert sorted[i] in ms;
    }
  }

  /** The serialiser writes the text of the document the value denotes, and throws where there is none. */
  lemma {:induction false} CanonicaliseDenotes(nfc: Normaliser, v: Value)
    ensures Canonicalise(nfc, v) == Printed(Denote(nfc, v))
    decreases v, 0
  {
    match v
    case Arr(elems) => CanonicaliseAllDenotes(nfc, elems);
    case Obj(entries) =>
      MembersMean(nfc, entries);
      ObjectDenotes(nfc, entries);
    case _ => LeafDenotes(nfc, v);
  }

  lemma {:induction false} CanonicaliseAllDenotes(nfc: Normaliser, vs: seq<Value>)
    ensures match DenoteAll(nfc, vs)
            case Err(e) => CanonicaliseAll(nfc, vs) == Err(e)
            case Ok(js) =>
              && CanonicaliseAll(nfc, vs).Ok?
              && [LBRACKET] + Join(CanonicaliseAll(nfc, vs).value) + [RBRACKET] == Print(JArr(js))
              && |CanonicaliseAll(nfc, vs).value| == |js| == |vs|
    decreases vs, 1
  {
    if vs != [] && vs[0] != Undefined {
      CanonicaliseDenotes(nfc, vs[0]);
      CanonicaliseAllDenotes(nfc, vs[1..]);
      if DenoteAll(nfc, vs).Ok? {
        var js := DenoteAll(nfc, vs).value;
        JoinElems(js[0], js[1..], CanonicaliseAll(nfc, vs[1..]).value);
        assert js == [js[0]] + js[1..];
      }
    } else if vs == [] {
      assert [LBRACKET] + [] + [RBRACKET] == [LBRACKET] + ([RBRACKET] + []);
    }
  }

  /** Prefixing one element to a bracketed list. */
  lemma JoinElems(j: Json, js: seq<Json>, parts: seq<Text>)
    requires |parts| == |js|
    requires [LBRACKET] + Join(parts) + [RBRACKET] == Print(JArr(js))
    ensures [LBRACKET] + Join([Print(j)] + parts) + [RBRACKET] == Print(JArr([j] + js))
  {
    var t := Print(j);
    var all, texts := [j] + js, [t] + parts;
    assert all[1..] == js && texts[1..] == parts;
    assert Print(JArr(all)) == [LBRACKET] + ElemsTo(all, []);
    if js == [] {
      assert [RBRACKET] + [] == [] + [RBRACKET];
      PrintAppend(j, [], [RBRACKET]);
      assert [LBRACKET] + t + [RBRACKET] == [LBRACKET] + (t + [RBRACKET]);
    } else {
      var rest := ElemsTo(js, []);
      DropBracket(LBRACKET, Join(parts), RBRACKET, rest);
      PrintAppend(j, [], [COMMA] + rest);
      assert [] + ([COMMA] + rest) == [COMMA] + rest;
      Splice(LBRACKET, t, Join(parts), RBRACKET);
      assert Join(texts) == t + [COMMA] + Join(parts);
      assert ElemsTo(all, []) == PrintTo(j, [COMMA] + rest);
    }
  }

  lemma DropBracket(open: CodeUnit, a: Text, close: CodeUnit, b: Text)
    requires [open] + a + [close] == [open] + b
    ensures a + [close] == b
  {
    assert ([open] + a + [close])[1..] == a + [close] && ([open] + b)[1..] == b;
  }

  lemma Splice(open: CodeUnit, t: Text, joined: Text, close: CodeUnit)
    ensures [open] + (t + [COMMA] + joined) + [close] == [open] + (t + ([COMMA] + (joined + [close])))
  {
  }

  lemma {:induction false} MembersMean(nfc: Normaliser, entries: seq<Entry>)
    ensures Members(nfc, entries) == Map(PrintMember(), Meanings(nfc, entries))
    decreases entries, 1
  {
    if entries != [] {
      MembersMean(nfc, entries[1..]);
      if entries[0].value != Undefined {
        CanonicaliseDenotes(nfc, entries[0].value);
      }
    }
  }

  lemma {:induction false} MeaningKeys(nfc: Normaliser, entries: seq<Entry>)
    ensures forall m | m in Meanings(nfc, entries) :: nfc(m.key) == m.key
  {
    if entries != [] {
      MeaningKeys(nfc, entries[1..]);
    }
  }

  lemma {:induction false} MemberTextsPrint(nfc: Normaliser, ms: seq<Member<Json>>)
    requires forall i | 0 <= i < |ms| :: nfc(ms[i].key) == ms[i].key
    ensures var texts := MemberTexts(nfc, Map(PrintMember(), ms));
            match FieldsOf(ms)
            case Err(e) => texts == Err(e)
            case Ok(fs) =>
              && texts.Ok?
              && [LBRACE] + Join(texts.value) + [RBRACE] == Print(JObj(fs))
              && |texts.value| == |fs| == |ms|
  {
    if ms == [] {
      assert [LBRACE] + [] + [RBRACE] == [LBRACE] + ([RBRACE] + []);
    } else {
      MemberTextsPrint(nfc, ms[1..]);
      assert Map(PrintMember(), ms)[1..] == Map(PrintMember(), ms[1..]);
      if FieldsOf(ms).Ok? {
        var fs := FieldsOf(ms).value;
        JoinFields(fs[0], fs[1..], MemberTexts(nfc, Map(PrintMember(), ms[1..])).value);
        assert fs == [fs[0]] + fs[1..];
      }
    }
  }

  lemma PrintFields(f: Field, fs: seq<Field>)
    ensures Print(JObj([f] + fs))
            == [LBRACE] + (JsonString(f.name)
                           + ([COLON]
                              + PrintTo(f.value, if fs == [] then [RBRACE] + [] else [COMMA] + FieldsTo(fs, []))))
  {
    var all := [f] + fs;
    assert all[1..] == fs && all[0] == f && (|all| == 1 <==> fs == []);
    assert Print(JObj(all)) == [LBRACE] + FieldsTo(all, []);
  }

  lemma PrintThen(j: Json, k: Text)
    ensures PrintTo(j, k) == Print(j) + k
  {
    PrintAppend(j, [], k);
    assert [] + k == k;
  }

  lemma BraceField(name: Text, t: Text)
    ensures [LBRACE] + (name + [COLON] + t) + [RBRACE] == [LBRACE] + (name + ([COLON] + (t + ([RBRACE] + []))))
  {
  }

  lemma JoinOneField(f: Field)
    ensures [LBRACE] + Join([JsonString(f.name) + [COLON] + Print(f.value)]) + [RBRACE] == Print(JObj([f] + []))
  {
    PrintFields(f, []);
    PrintThen(f.value, [RBRACE] + []);
    BraceField(JsonString(f.name), Print(f.value));
  }

  lemma FieldsToCons(f: Field, fs: seq<Field>)
    requires fs != []
    ensures Print(JObj([f] + fs))
            == [LBRACE] + (JsonString(f.name) + ([COLON] + (Print(f.value) + ([COMMA] + FieldsTo(fs, [])))))
  {
    PrintFields(f, fs);
    PrintThen(f.value, [COMMA] + FieldsTo(fs, []));
  }

  lemma JoinCons(part: Text, parts: seq<Text>)
    requires parts != []
    ensures Join([part] + parts) == part + [COMMA] + Join(parts)
  {
    assert ([part] + parts)[1..] == parts;
  }

  lemma JoinFields(f: Field, fs: seq<Field>, parts: seq<Text>)
    requires |parts| == |fs|
    requires [LBRACE] + Join(parts) + [RBRACE] == Print(JObj(fs))
    ensures [LBRACE] + Join([JsonString(f.name) + [COLON] + Print(f.value)] + parts) + [RBRACE]
            == Print(JObj([f] + fs))
  {
    var name, t := JsonString(f.name), Print(f.value);
    if fs == [] {
      JoinOneField(f);
      assert [name + [COLON] + t] + parts == [name + [COLON] + t];
    } else {
      DropBracket(LBRACE, Join(parts), RBRACE, FieldsTo(fs, []));
      FieldsToCons(f, fs);
      JoinCons(name + [COLON] + t, parts);
      SpliceField(name, t, Join(parts));
    }
  }

  lemma SpliceField(name: Text, t: Text, joined: Text)
    ensures [LBRACE] + (name + [COLON] + t + [COMMA] + joined) + [RBRACE]
            == [LBRACE] + (name + ([COLON] + (t + ([COMMA] + (joined + [RBRACE])))))
  {
  }

  /** The canonical text is JSON, and parsing it gives the document the value denotes. */
  lemma CanonicalTextParses(nfc: Normaliser, v: Value)
    ensures Canonicalise(nfc, v).Ok? <==> Denote(nfc, v).Ok?
    ensures Canonicalise(nfc, v).Ok? ==> Parse(Canonicalise(nfc, v).value) == Some(Denote(nfc, v).value)
  {
    CanonicaliseDenotes(nfc, v);
    if Denote(nfc, v).Ok? {
      ParseOfPrint(Denote(nfc, v).value);
    }
  }
}

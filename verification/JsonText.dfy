/**
 JSON documents without insignificant whitespace: the document tree, its text, and a parser by the
 grammar of RFC 8259 (strings: section 7; numbers: section 6, only plain decimals in normal form).
 The parser undoes the printer whatever follows the text, so every document is self-delimiting.
 */
module JsonText {
  import opened Wrappers
  import opened Texts
  import opened Decimals
  import opened CanonicalSerialiser

  datatype Json =
    | JNull
    | JBool(b: bool)
    | JNum(text: NormalText)
    | JStr(s: Text)
    | JArr(elems: seq<Json>)
    | JObj(fields: seq<Field>)

  datatype Field = Field(name: Text, value: Json)

  // ---------------------------------------------------------------- printing

  /** The text of `j` followed by `k`. */
  function PrintTo(j: Json, k: Text): (t: Text)
    decreases j, 0
  {
    match j
    case JNull => Ascii("null") + k
    case JBool(b) => (if b then Ascii("true") else Ascii("false")) + k
    case JNum(text) => text + k
    case JStr(s) => JsonString(s) + k
    case JArr(elems) => [LBRACKET] + (if elems == [] then [RBRACKET] + k else ElemsTo(elems, k))
    case JObj(fields) => [LBRACE] + (if fields == [] then [RBRACE] + k else FieldsTo(fields, k))
  }

  function ElemsTo(js: seq<Json>, k: Text): Text
    requires js != []
    decreases js, 1
  {
    PrintTo(js[0], if |js| == 1 then [RBRACKET] + k else [COMMA] + ElemsTo(js[1..], k))
  }

  function FieldsTo(fs: seq<Field>, k: Text): Text
    requires fs != []
    decreases fs, 1
  {
    JsonString(fs[0].name)
    + ([COLON] + PrintTo(fs[0].value, if |fs| == 1 then [RBRACE] + k else [COMMA] + FieldsTo(fs[1..], k)))
  }

  function Print(j: Json): Text {
    PrintTo(j, [])
  }

  lemma Prefixed(a: Text, k: Text, m: Text)
    ensures a + (k + m) == a + k + m
  {
  }

  lemma {:induction false} PrintAppend(j: Json, k: Text, m: Text)
    ensures PrintTo(j, k + m) == PrintTo(j, k) + m
    decreases j, 0
  {
    match j
    case JNull => Prefixed(Ascii("null"), k, m);
    case JBool(b) => Prefixed(if b then Ascii("true") else Ascii("false"), k, m);
    case JNum(text) => Prefixed(text, k, m);
    case JStr(s) => Prefixed(JsonString(s), k, m);
    case JArr(elems) =>
      if elems == [] {
        Prefixed([RBRACKET], k, m);
        Prefixed([LBRACKET], [RBRACKET] + k, m);
      } else {
        ElemsAppend(elems, k, m);
        Prefixed([LBRACKET], ElemsTo(elems, k), m);
      }
    case JObj(fields) =>
      if fields == [] {
        Prefixed([RBRACE], k, m);
        Prefixed([LBRACE], [RBRACE] + k, m);
      } else {
        FieldsAppend(fields, k, m);
        Prefixed([LBRACE], FieldsTo(fields, k), m);
      }
  }

  lemma {:induction false} ElemsAppend(js: seq<Json>, k: Text, m: Text)
    requires js != []
    ensures ElemsTo(js, k + m) == ElemsTo(js, k) + m
    decreases js, 1
  {
    if |js| == 1 {
      assert [RBRACKET] + (k + m) == [RBRACKET] + k + m;
      PrintAppend(js[0], [RBRACKET] + k, m);
    } else {
      ElemsAppend(js[1..], k, m);
      assert [COMMA] + (ElemsTo(js[1..], k) + m) == [COMMA] + ElemsTo(js[1..], k) + m;
      PrintAppend(js[0], [COMMA] + ElemsTo(js[1..], k), m);
    }
  }

  lemma {:induction false} FieldsAppend(fs: seq<Field>, k: Text, m: Text)
    requires fs != []
    ensures FieldsTo(fs, k + m) == FieldsTo(fs, k) + m
    decreases fs, 1
  {
    var name := JsonString(fs[0].name);
    var k' := if |fs| == 1 then [RBRACE] + k else [COMMA] + FieldsTo(fs[1..], k);
    if |fs| == 1 {
      assert [RBRACE] + (k + m) == k' + m;
    } else {
      FieldsAppend(fs[1..], k, m);
      assert [COMMA] + (FieldsTo(fs[1..], k) + m) == k' + m;
    }
    PrintAppend(fs[0].value, k', m);
    Reassociate(name, PrintTo(fs[0].value, k'), m);
  }

  lemma Reassociate(a: Text, b: Text, c: Text)
    ensures a + ([COLON] + (b + c)) == a + ([COLON] + b) + c
  {
  }

  // ---------------------------------------------------------------- parsing strings (section 7)

  function HexValue(c: CodeUnit): (d: Option<CodeUnit>)
    ensures d.Some? ==> d.value < 16
  {
    if '0' as int <= c <= '9' as int then Some(c - '0' as int)
    else if 'a' as int <= c <= 'f' as int then Some(c - 'a' as int + 10)
    else if 'A' as int <= c <= 'F' as int then Some(c - 'A' as int + 10)
    else None
  }

  /** The four hexadecimal digits of a `\u` escape. */
  function ParseHex4(s: Text): (c: Option<CodeUnit>)
    requires |s| >= 4
  {
    match (HexValue(s[0]), HexValue(s[1]), HexValue(s[2]), HexValue(s[3]))
    case (Some(a), Some(b), Some(c), Some(d)) => Some(a * 0x1000 + b * 0x100 + c * 0x10 + d)
    case _ => None
  }

  function SimpleEscape(c: CodeUnit): Option<CodeUnit> {
    if c == '"' as int || c == '\\' as int || c == '/' as int then Some(c)
    else if c == 'b' as int then Some(8)
    else if c == 't' as int then Some(9)
    else if c == 'n' as int then Some(10)
    else if c == 'f' as int then Some(12)
    else if c == 'r' as int then Some(13)
    else None
  }

  function Prepend(c: CodeUnit, r: Option<(Text, Text)>): Option<(Text, Text)> {
    match r
    case None => None
    case Some((t, rest)) => Some(([c] + t, rest))
  }

  /** The characters of a string up to and including its closing quote, and what follows. */
  function ParseChars(s: Text): (r: Option<(Text, Text)>)
    ensures r.Some? ==> |r.value.1| < |s|
  {
    if s == [] then None
    else if s[0] == '"' as int then Some(([], s[1..]))
    else if s[0] < 0x20 then None
    else if s[0] != '\\' as int then Prepend(s[0], ParseChars(s[1..]))
    else if |s| < 2 then None
    else if s[1] == 'u' as int then
      if |s| < 6 then None
      else
        match ParseHex4(s[2..])
        case None => None
        case Some(c) => Prepend(c, ParseChars(s[6..]))
    else
      match SimpleEscape(s[1])
      case None => None
      case Some(c) => Prepend(c, ParseChars(s[2..]))
  }

  lemma HexDigitRoundTrip(d: CodeUnit)
    requires d < 16
    ensures HexValue(HexDigit(d)) == Some(d)
  {
  }

  lemma FourDigits(c: CodeUnit)
    ensures c / 0x1000 < 16
    ensures c == c / 0x1000 * 0x1000 + c / 0x100 % 16 * 0x100 + c / 0x10 % 16 * 0x10 + c % 16
  {
    var x, y, z := c / 0x10, c / 0x100, c / 0x1000;
    assert y == x / 16 && z == y / 16;
    assert c == 16 * x + c % 16 && x == 16 * y + x % 16 && y == 16 * z + y % 16;
  }

  lemma HexRoundTrip(c: CodeUnit, t: Text)
    ensures var s := UnicodeEscape(c) + t;
            s[0] == BACKSLASH && s[1] == 'u' as int && ParseHex4(s[2..]) == Some(c) && s[6..] == t
  {
    HexDigitRoundTrip(c / 0x1000);
    HexDigitRoundTrip(c / 0x100 % 16);
    HexDigitRoundTrip(c / 0x10 % 16);
    HexDigitRoundTrip(c % 16);
    FourDigits(c);
  }

  lemma ParseUnit(c: CodeUnit, t: Text)
    ensures ParseChars(EscapeUnit(c) + t) == Prepend(c, ParseChars(t))
  {
    var s := EscapeUnit(c) + t;
    if EscapeUnit(c) == [c] {
      assert s[1..] == t;
    } else if |EscapeUnit(c)| == 2 {
      assert s[2..] == t;
    } else {
      HexRoundTrip(c, t);
    }
  }

  lemma ParseRaw(c: CodeUnit, t: Text)
    requires c >= 0x20 && c != QUOTE && c != BACKSLASH
    ensures ParseChars([c] + t) == Prepend(c, ParseChars(t))
  {
    assert ([c] + t)[1..] == t;
  }

  /** A surrogate pair is written verbatim. */
  lemma ParsePair(s: Text, t: Text, k: Text)
    requires |s| >= 2 && IsHigh(s[0]) && IsLow(s[1])
    requires ParseChars(t) == Some((s[2..], k))
    ensures ParseChars(s[..2] + t) == Some((s, k))
  {
    assert s[..2] + t == [s[0]] + ([s[1]] + t);
    ParseRaw(s[1], t);
    ParseRaw(s[0], [s[1]] + t);
    assert s == [s[0]] + ([s[1]] + s[2..]);
  }

  lemma ParseSingle(s: Text, t: Text, k: Text)
    requires s != []
    requires ParseChars(t) == Some((s[1..], k))
    ensures ParseChars(EscapeUnit(s[0]) + t) == Some((s, k))
  {
    ParseUnit(s[0], t);
    assert s == [s[0]] + s[1..];
  }

  lemma ParseClosing(k: Text)
    ensures ParseChars([QUOTE] + k) == Some(([], k))
  {
    assert ([QUOTE] + k)[1..] == k;
  }

  lemma ConcatThree(a: Text, b: Text, c: Text)
    ensures (a + b) + c == a + (b + c)
  {
  }

  /** Strings are self-delimiting. */
  lemma {:induction false} ParseEscaped(s: Text, k: Text)
    ensures ParseChars(Escape(s) + ([QUOTE] + k)) == Some((s, k))
  {
    var q := [QUOTE] + k;
    if s == [] {
      assert Escape(s) + q == q;
      ParseClosing(k);
    } else if |s| >= 2 && IsHigh(s[0]) && IsLow(s[1]) {
      ParseEscaped(s[2..], k);
      ConcatThree(s[..2], Escape(s[2..]), q);
      ParsePair(s, Escape(s[2..]) + q, k);
    } else {
      ParseEscaped(s[1..], k);
      ConcatThree(EscapeUnit(s[0]), Escape(s[1..]), q);
      ParseSingle(s, Escape(s[1..]) + q, k);
    }
  }

  /** A quoted string followed by `k`, from its opening quote on. */
  lemma ParseQuoted(s: Text, k: Text)
    ensures var t := JsonString(s) + k; t[0] == QUOTE && ParseChars(t[1..]) == Some((s, k))
  {
    var t := JsonString(s) + k;
    assert t[1..] == Escape(s) + ([QUOTE] + k);
    ParseEscaped(s, k);
  }

  // ---------------------------------------------------------------- parsing numbers (section 6)

  predicate NumberUnit(c: CodeUnit) {
    '0' as int <= c <= '9' as int || c == '-' as int || c == '.' as int
  }

  function NumberSpan(s: Text): (n: nat)
    ensures n <= |s|
    ensures s != [] && NumberUnit(s[0]) ==> n > 0
  {
    if s == [] || !NumberUnit(s[0]) then 0 else 1 + NumberSpan(s[1..])
  }

  lemma {:induction false} NumberSpanOf(a: Text, k: Text)
    requires forall i | 0 <= i < |a| :: NumberUnit(a[i])
    requires k == [] || !NumberUnit(k[0])
    ensures NumberSpan(a + k) == |a|
  {
    if a == [] {
      assert a + k == k;
    } else {
      assert (a + k)[1..] == a[1..] + k;
      NumberSpanOf(a[1..], k);
    }
  }

  lemma RenderedUnits(d: Decimal)
    requires d.Valid()
    ensures d.Render() != [] && forall i | 0 <= i < |d.Render()| :: NumberUnit(d.Render()[i])
  {
    forall c | IsDigit(c) ensures NumberUnit(c) {
    }
  }

  lemma NormalTextUnits(t: NormalText)
    ensures t != [] && forall i | 0 <= i < |t| :: NumberUnit(t[i])
  {
    RenderMatch(t);
    RenderedUnits(MatchDecimal(t).value);
  }

  // ---------------------------------------------------------------- parsing values

  function ParseLiteral(s: Text, word: Text, j: Json): (r: Option<(Json, Text)>)
    requires word != []
    ensures r.Some? ==> |r.value.1| < |s|
  {
    if word <= s then Some((j, s[|word|..])) else None
  }

  function ParseNumber(s: Text): (r: Option<(Json, Text)>)
    requires s != [] && NumberUnit(s[0])
    ensures r.Some? ==> |r.value.1| < |s|
  {
    var n := NumberSpan(s);
    if IsNormalText(s[..n]) then Some((JNum(s[..n]), s[n..])) else None
  }

  /** A value at the start of `s`, and the rest of `s`. */
  function ParseValue(s: Text): (r: Option<(Json, Text)>)
    ensures r.Some? ==> |r.value.1| < |s|
    decreases |s|, 0
  {
    if s == [] then None
    else if s[0] == '"' as int then
      match ParseChars(s[1..])
      case None => None
      case Some((t, rest)) => Some((JStr(t), rest))
    else if s[0] == '[' as int then
      if |s| > 1 && s[1] == ']' as int then Some((JArr([]), s[2..]))
      else
        match ParseElems(s[1..])
        case None => None
        case Some((js, rest)) => Some((JArr(js), rest))
    else if s[0] == '{' as int then
      if |s| > 1 && s[1] == '}' as int then Some((JObj([]), s[2..]))
      else
        match ParseFields(s[1..])
        case None => None
        case Some((fs, rest)) => Some((JObj(fs), rest))
    else if NumberUnit(s[0]) then ParseNumber(s)
    else if s[0] == 'n' as int then ParseLiteral(s, Ascii("null"), JNull)
    else if s[0] == 't' as int then ParseLiteral(s, Ascii("true"), JBool(true))
    else ParseLiteral(s, Ascii("false"), JBool(false))
  }

  /** `value *( "," value ) "]"` */
  function ParseElems(s: Text): (r: Option<(seq<Json>, Text)>)
    ensures r.Some? ==> |r.value.1| < |s|
    decreases |s|, 1
  {
    match ParseValue(s)
    case None => None
    case Some((j, rest)) =>
      if rest == [] then None
      else if rest[0] == ']' as int then Some(([j], rest[1..]))
      else if rest[0] != ',' as int then None
      else
        match ParseElems(rest[1..])
        case None => None
        case Some((js, rest')) => Some(([j] + js, rest'))
  }

  /** `string ":" value *( "," string ":" value ) "}"` */
  function ParseFields(s: Text): (r: Option<(seq<Field>, Text)>)
    ensures r.Some? ==> |r.value.1| < |s|
    decreases |s|, 1
  {
    if s == [] || s[0] != '"' as int then None
    else
      match ParseChars(s[1..])
      case None => None
      case Some((name, afterName)) =>
        if afterName == [] || afterName[0] != ':' as int then None
        else
          match ParseValue(afterName[1..])
          case None => None
          case Some((j, rest)) =>
            if rest == [] then None
            else if rest[0] == '}' as int then Some(([Field(name, j)], rest[1..]))
            else if rest[0] != ',' as int then None
            else
              match ParseFields(rest[1..])
              case None => None
              case Some((fs, rest')) => Some(([Field(name, j)] + fs, rest'))
  }

  /** A whole text as one JSON document. */
  function Parse(s: Text): Option<Json> {
    match ParseValue(s)
    case Some((j, rest)) => if rest == [] then Some(j) else None
    case None => None
  }

  // ---------------------------------------------------------------- the parser undoes the printer

  /** What may follow a value: anything that does not prolong a number. */
  predicate Delimited(k: Text) {
    k == [] || !NumberUnit(k[0])
  }

  lemma ParsePrintNumber(t: NormalText, k: Text)
    requires Delimited(k)
    ensures ParseValue(t + k) == Some((JNum(t), k))
  {
    NormalTextUnits(t);
    NumberSpanOf(t, k);
    var s := t + k;
    assert s[..|t|] == t && s[|t|..] == k;
    assert s[0] == t[0];
  }

  lemma ParsePrintWord(word: Text, j: Json, k: Text)
    requires word != []
    ensures ParseLiteral(word + k, word, j) == Some((j, k))
  {
    assert (word + k)[|word|..] == k;
  }

  lemma ParseString(t: Text, k: Text)
    ensures ParseValue(JsonString(t) + k) == Some((JStr(t), k))
  {
    ParseQuoted(t, k);
  }

  lemma ParseArray(t: Text, js: seq<Json>, k: Text)
    requires t != [] && t[0] != RBRACKET && ParseElems(t) == Some((js, k))
    ensures ParseValue([LBRACKET] + t) == Some((JArr(js), k))
  {
    assert ([LBRACKET] + t)[1..] == t;
  }

  lemma ParseObject(t: Text, fs: seq<Field>, k: Text)
    requires ParseFields(t) == Some((fs, k))
    ensures ParseValue([LBRACE] + t) == Some((JObj(fs), k))
  {
    assert ([LBRACE] + t)[1..] == t;
  }

  lemma ParseEmpty(k: Text)
    ensures ParseValue([LBRACKET] + ([RBRACKET] + k)) == Some((JArr([]), k))
    ensures ParseValue([LBRACE] + ([RBRACE] + k)) == Some((JObj([]), k))
  {
    assert ([LBRACKET] + ([RBRACKET] + k))[2..] == k;
    assert ([LBRACE] + ([RBRACE] + k))[2..] == k;
  }

  lemma ParseWords(k: Text)
    ensures ParseValue(Ascii("null") + k) == Some((JNull, k))
    ensures ParseValue(Ascii("true") + k) == Some((JBool(true), k))
    ensures ParseValue(Ascii("false") + k) == Some((JBool(false), k))
  {
    ParsePrintWord(Ascii("null"), JNull, k);
    ParsePrintWord(Ascii("true"), JBool(true), k);
    ParsePrintWord(Ascii("false"), JBool(false), k);
  }

  lemma {:induction false} ParsePrint(j: Json, k: Text)
    requires Delimited(k)
    ensures ParseValue(PrintTo(j, k)) == Some((j, k))
    decreases j, 0
  {
    match j
    case JNull => ParseWords(k);
    case JBool(b) => ParseWords(k);
    case JNum(text) => ParsePrintNumber(text, k);
    case JStr(t) => ParseString(t, k);
    case JArr(elems) =>
      if elems == [] {
        ParseEmpty(k);
      } else {
        ParsePrintElems(elems, k);
        ElemsStart(elems, k);
        ParseArray(ElemsTo(elems, k), elems, k);
      }
    case JObj(fields) =>
      if fields == [] {
        ParseEmpty(k);
      } else {
        ParsePrintFields(fields, k);
        ParseObject(FieldsTo(fields, k), fields, k);
      }
  }

  lemma ElemsStart(js: seq<Json>, k: Text)
    requires js != []
    ensures ElemsTo(js, k) != [] && ElemsTo(js, k)[0] != RBRACKET
  {
    PrintStart(js[0], if |js| == 1 then [RBRACKET] + k else [COMMA] + ElemsTo(js[1..], k));
  }

  /** No value starts with a closing bracket. */
  lemma PrintStart(j: Json, k: Text)
    ensures PrintTo(j, k) != [] && PrintTo(j, k)[0] != RBRACKET
  {
    if j.JNum? {
      NormalTextUnits(j.text);
    }
  }

  lemma {:induction false} ParsePrintElems(js: seq<Json>, k: Text)
    requires js != []
    ensures ParseElems(ElemsTo(js, k)) == Some((js, k))
    decreases js, 1
  {
    if |js| == 1 {
      var r := [RBRACKET] + k;
      ParsePrint(js[0], r);
      assert r[1..] == k && js == [js[0]];
    } else {
      var r := [COMMA] + ElemsTo(js[1..], k);
      ParsePrint(js[0], r);
      assert r[1..] == ElemsTo(js[1..], k);
      ParsePrintElems(js[1..], k);
      assert js == [js[0]] + js[1..];
    }
  }

  lemma {:induction false} ParsePrintFields(fs: seq<Field>, k: Text)
    requires fs != []
    ensures ParseFields(FieldsTo(fs, k)) == Some((fs, k))
    decreases fs, 1
  {
    var r := if |fs| == 1 then [RBRACE] + k else [COMMA] + FieldsTo(fs[1..], k);
    var v := [COLON] + PrintTo(fs[0].value, r);
    ParseQuoted(fs[0].name, v);
    assert v[1..] == PrintTo(fs[0].value, r);
    ParsePrint(fs[0].value, r);
    assert fs[0] == Field(fs[0].name, fs[0].value);
    if |fs| == 1 {
      assert r[1..] == k && fs == [fs[0]];
    } else {
      assert r[1..] == FieldsTo(fs[1..], k);
      ParsePrintFields(fs[1..], k);
      assert fs == [fs[0]] + fs[1..];
    }
  }

  /** Parsing the text of a document gives the document back. */
  lemma ParseOfPrint(j: Json)
    ensures Parse(Print(j)) == Some(j)
  {
    ParsePrint(j, []);
  }
}

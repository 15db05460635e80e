/**
 The bytes that are hashed: the canonical text in UTF-8. Node replaces a lone surrogate on encoding,
 which would merge different texts; canonical texts contain none, so the bytes identify the record.
 */
module CanonicalBytes {
  import opened Wrappers
  import opened Texts
  import opened CanonicalSerialiser
  import opened JsonText
  import opened CanonicalMeaning
  import opened CanonicalEquality

  // ---------------------------------------------------------------- UTF-8

  /** One code point in UTF-8. */
  function EncodePoint(p: nat): (s: seq<Byte>)
    requires p < 0x11_0000
    ensures s != []
  {
    if p < 0x80 then [p]
    else if p < 0x800 then [0xC0 + p / 0x40, 0x80 + p % 0x40]
    else if p < 0x1_0000 then [0xE0 + p / 0x1000, 0x80 + p / 0x40 % 0x40, 0x80 + p % 0x40]
    else [0xF0 + p / 0x4_0000, 0x80 + p / 0x1000 % 0x40, 0x80 + p / 0x40 % 0x40, 0x80 + p % 0x40]
  }

  function PairPoint(high: CodeUnit, low: CodeUnit): (p: nat)
    requires IsHigh(high) && IsLow(low)
    ensures 0x1_0000 <= p < 0x11_0000
  {
    0x1_0000 + (high - 0xD800) * 0x400 + (low - 0xDC00)
  }

  const REPLACEMENT: nat := 0xFFFD

  /** `Buffer.from(text, 'utf8')`: a lone surrogate becomes the replacement character. */
  function EncodeUtf8(t: Text): seq<Byte> {
    if t == [] then []
    else if |t| >= 2 && IsHigh(t[0]) && IsLow(t[1]) then EncodePoint(PairPoint(t[0], t[1])) + EncodeUtf8(t[2..])
    else EncodePoint(if IsHigh(t[0]) || IsLow(t[0]) then REPLACEMENT else t[0]) + EncodeUtf8(t[1..])
  }

  function PointUnits(p: nat): Text
    requires p < 0x11_0000
  {
    if p < 0x1_0000 then [p] else [0xD800 + (p - 0x1_0000) / 0x400, 0xDC00 + (p - 0x1_0000) % 0x400]
  }

  /** Reads back well-formed UTF-8; anything else is cut short. */
  function DecodeUtf8(s: seq<Byte>): Text {
    if s == [] then []
    else if s[0] < 0x80 then [s[0]] + DecodeUtf8(s[1..])
    else
      var n := if s[0] < 0xE0 then 2 else if s[0] < 0xF0 then 3 else 4;
      if |s| < n then []
      else
        var lead, cont := s[0] as int, (i: int) requires 0 <= i < |s| => s[i] as int - 0x80;
        var p := if n == 2 then (lead - 0xC0) * 0x40 + cont(1)
                 else if n == 3 then (lead - 0xE0) * 0x1000 + cont(1) * 0x40 + cont(2)
                 else (lead - 0xF0) * 0x4_0000 + cont(1) * 0x1000 + cont(2) * 0x40 + cont(3);
        if 0 <= p < 0x11_0000 then PointUnits(p) + DecodeUtf8(s[n..]) else []
  }

  /** Every surrogate stands in a pair. */
  predicate WellPaired(t: Text) {
    if t == [] then true
    else if IsHigh(t[0]) then |t| >= 2 && IsLow(t[1]) && WellPaired(t[2..])
    else !IsLow(t[0]) && WellPaired(t[1..])
  }

  lemma SixBitGroups(p: nat)
    ensures p == p / 0x40 * 0x40 + p % 0x40
    ensures p / 0x40 == p / 0x1000 * 0x40 + p / 0x40 % 0x40
    ensures p / 0x1000 == p / 0x4_0000 * 0x40 + p / 0x1000 % 0x40
  {
    assert p / 0x1000 == p / 0x40 / 0x40 && p / 0x4_0000 == p / 0x1000 / 0x40;
  }

  lemma DecodeEncodedPoint(p: nat, s: seq<Byte>)
    requires p < 0x11_0000
    ensures DecodeUtf8(EncodePoint(p) + s) == PointUnits(p) + DecodeUtf8(s)
  {
    var e := EncodePoint(p);
    assert (e + s)[|e|..] == s;
    SixBitGroups(p);
  }

  lemma PairUnits(h: CodeUnit, l: CodeUnit)
    requires IsHigh(h) && IsLow(l)
    ensures PointUnits(PairPoint(h, l)) == [h, l]
  {
  }

  /** Encoding loses nothing on texts without lone surrogates. */
  lemma {:induction false} DecodeEncoded(t: Text)
    requires WellPaired(t)
    ensures DecodeUtf8(EncodeUtf8(t)) == t
  {
    if t != [] {
      if IsHigh(t[0]) {
        DecodeEncoded(t[2..]);
        DecodePrefixed(PairPoint(t[0], t[1]), t[2..], t);
        PairUnits(t[0], t[1]);
        assert t == [t[0], t[1]] + t[2..];
      } else {
        DecodeEncoded(t[1..]);
        DecodePrefixed(t[0], t[1..], t);
        assert t == [t[0]] + t[1..];
      }
    }
  }

  lemma DecodePrefixed(p: nat, rest: Text, t: Text)
    requires p < 0x11_0000
    requires EncodeUtf8(t) == EncodePoint(p) + EncodeUtf8(rest)
    requires DecodeUtf8(EncodeUtf8(rest)) == rest
    ensures DecodeUtf8(EncodeUtf8(t)) == PointUnits(p) + rest
  {
    DecodeEncodedPoint(p, EncodeUtf8(rest));
  }

  // ---------------------------------------------------------------- canonical texts are well paired

  lemma {:induction false} PairedConcat(a: Text, b: Text)
    requires WellPaired(a) && WellPaired(b)
    ensures WellPaired(a + b)
  {
    if a == [] {
      assert a + b == b;
    } else if IsHigh(a[0]) {
      assert (a + b)[2..] == a[2..] + b;
      PairedConcat(a[2..], b);
    } else {
      assert (a + b)[1..] == a[1..] + b;
      PairedConcat(a[1..], b);
    }
  }

  lemma {:induction false} AsciiPaired(t: Text)
    requires IsAscii(t)
    ensures WellPaired(t)
  {
    if t != [] {
      AsciiPaired(t[1..]);
    }
  }

  lemma UnitPaired(c: CodeUnit)
    ensures WellPaired(EscapeUnit(c))
  {
    if EscapeUnit(c) != [c] {
      AsciiPaired(EscapeUnit(c));
    }
  }

  lemma {:induction false} EscapePaired(s: Text)
    ensures WellPaired(Escape(s))
  {
    if s == [] {
    } else if |s| >= 2 && IsHigh(s[0]) && IsLow(s[1]) {
      EscapePaired(s[2..]);
      assert s[..2][2..] == [];
      PairedConcat(s[..2], Escape(s[2..]));
    } else {
      EscapePaired(s[1..]);
      UnitPaired(s[0]);
      PairedConcat(EscapeUnit(s[0]), Escape(s[1..]));
    }
  }

  lemma QuotedPaired(s: Text, k: Text)
    requires WellPaired(k)
    ensures WellPaired(JsonString(s) + k)
  {
    EscapePaired(s);
    AsciiPaired([QUOTE]);
    PairedConcat([QUOTE], Escape(s));
    PairedConcat([QUOTE] + Escape(s), [QUOTE]);
    PairedConcat(JsonString(s), k);
  }

  lemma NumberPaired(t: NormalText)
    ensures WellPaired(t)
  {
    NormalTextUnits(t);
    AsciiPaired(t);
  }

  lemma PrefixPaired(c: CodeUnit, k: Text)
    requires c < 0x80 && WellPaired(k)
    ensures WellPaired([c] + k)
  {
    assert ([c] + k)[1..] == k;
  }

  lemma {:induction false} PrintPaired(j: Json, k: Text)
    requires WellPaired(k)
    ensures WellPaired(PrintTo(j, k))
    decreases j, 0
  {
    match j
    case JNull =>
      AsciiPaired(Ascii("null"));
      PairedConcat(Ascii("null"), k);
    case JBool(b) =>
      var word := if b then Ascii("true") else Ascii("false");
      AsciiPaired(word);
      PairedConcat(word, k);
    case JNum(text) =>
      NumberPaired(text);
      PairedConcat(text, k);
    case JStr(s) => QuotedPaired(s, k);
    case JArr(elems) =>
      if elems == [] {
        PrefixPaired(RBRACKET, k);
      } else {
        ElemsPaired(elems, k);
      }
      PrefixPaired(LBRACKET, if elems == [] then [RBRACKET] + k else ElemsTo(elems, k));
    case JObj(fields) =>
      if fields == [] {
        PrefixPaired(RBRACE, k);
      } else {
        FieldsPaired(fields, k);
      }
      PrefixPaired(LBRACE, if fields == [] then [RBRACE] + k else FieldsTo(fields, k));
  }

  lemma {:induction false} ElemsPaired(js: seq<Json>, k: Text)
    requires js != [] && WellPaired(k)
    ensures WellPaired(ElemsTo(js, k))
    decreases js, 1
  {
    if |js| == 1 {
      PrefixPaired(RBRACKET, k);
      PrintPaired(js[0], [RBRACKET] + k);
    } else {
      ElemsPaired(js[1..], k);
      PrefixPaired(COMMA, ElemsTo(js[1..], k));
      PrintPaired(js[0], [COMMA] + ElemsTo(js[1..], k));
    }
  }

  lemma {:induction false} FieldsPaired(fs: seq<Field>, k: Text)
    requires fs != [] && WellPaired(k)
    ensures WellPaired(FieldsTo(fs, k))
    decreases fs, 1
  {
    if |fs| == 1 {
      PrefixPaired(RBRACE, k);
    } else {
      FieldsPaired(fs[1..], k);
      PrefixPaired(COMMA, FieldsTo(fs[1..], k));
    }
    var rest := if |fs| == 1 then [RBRACE] + k else [COMMA] + FieldsTo(fs[1..], k);
    PrintPaired(fs[0].value, rest);
    PrefixPaired(COLON, PrintTo(fs[0].value, rest));
    QuotedPaired(fs[0].name, [COLON] + PrintTo(fs[0].value, rest));
  }

  /** A canonical text has no lone surrogate, whatever strings went in. */
  lemma CanonicalTextPaired(nfc: Normaliser, v: Value)
    requires Canonicalise(nfc, v).Ok?
    ensures WellPaired(Canonicalise(nfc, v).value)
  {
    CanonicaliseDenotes(nfc, v);
    PrintPaired(Denote(nfc, v).value, []);
  }

  // ---------------------------------------------------------------- the bytes identify the record

  function CanonicalSerialise(nfc: Normaliser, v: Value): Result<seq<Byte>, Error> {
    match Canonicalise(nfc, v)
    case Ok(t) => Ok(EncodeUtf8(t))
    case Err(e) => Err(e)
  }

  /** Two accepted values give the same bytes exactly when they are the same record. */
  lemma SameBytesIffSameRecord(nfc: Normaliser, v: Value, w: Value)
    requires Accepted(v) && Accepted(w) && DistinctNames(nfc, v) && DistinctNames(nfc, w)
    ensures CanonicalSerialise(nfc, v).Ok? && CanonicalSerialise(nfc, w).Ok?
    ensures CanonicalSerialise(nfc, v) == CanonicalSerialise(nfc, w) <==> SameRecord(nfc, v, w)
  {
    AcceptedIff(nfc, v);
    AcceptedIff(nfc, w);
    SameTextIffSameRecord(nfc, v, w);
    CanonicalTextPaired(nfc, v);
    CanonicalTextPaired(nfc, w);
    DecodeEncoded(Canonicalise(nfc, v).value);
    DecodeEncoded(Canonicalise(nfc, w).value);
  }
}

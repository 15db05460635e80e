/**
 The canonical serialiser: the text every content hash, signature and idempotency fingerprint is
 computed from. Unicode NFC is a parameter; `Number.toString` and `Date.toISOString` are given texts.
 */
module CanonicalSerialiser {
  import opened Wrappers
  import opened Texts
  import opened Decimals
  import opened NumberTexts

  const QUOTE: CodeUnit := '"' as int
  const BACKSLASH: CodeUnit := '\\' as int
  const COMMA: CodeUnit := ',' as int
  const COLON: CodeUnit := ':' as int
  const LBRACKET: CodeUnit := '[' as int
  const RBRACKET: CodeUnit := ']' as int
  const LBRACE: CodeUnit := '{' as int
  const RBRACE: CodeUnit := '}' as int

  /** The facts about Unicode NFC that are used: it is idempotent and leaves ASCII alone. */
  ghost predicate IsNormaliser(f: Text -> Text) {
    && (forall t: Text :: f(f(t)) == f(t))
    && (forall t: Text :: IsAscii(t) ==> f(t) == t)
  }

  type Normaliser = f: Text -> Text | IsNormaliser(f) witness (t: Text) => t

  // ---------------------------------------------------------------- values

  type JsNumberText = t: Text | IsJsNumberText(t) witness (ZeroIsNormal(); [ZERO])

  type NormalText = t: Text | IsNormalText(t) witness (ZeroIsNormal(); [ZERO])

  type AsciiText = t: Text | IsAscii(t) witness []

  datatype JsNumber = NotFinite | MinusZero | Finite(text: JsNumberText)

  /** `CanonicalValue`. `Exact` is a constructed `CanonicalDecimal`; `Unsupported` is anything else. */
  datatype Value =
    | Undefined
    | Null
    | Bool(b: bool)
    | Str(text: Text)
    | Number(n: JsNumber)
    | BigInt(i: int)
    | InvalidDate
    | Timestamp(iso: AsciiText)
    | Exact(canonical: NormalText)
    | Arr(elems: seq<Value>)
    | Obj(entries: seq<Entry>)
    | Unsupported

  /** One own property, in insertion order within its object. */
  datatype Entry = Entry(key: Text, value: Value)

  datatype Error = UndefinedValue | UndefinedElement | NonFiniteNumber | InvalidTimestamp | UnsupportedType

  // ---------------------------------------------------------------- strings

  predicate IsHigh(c: CodeUnit) {
    0xD800 <= c <= 0xDBFF
  }

  predicate IsLow(c: CodeUnit) {
    0xDC00 <= c <= 0xDFFF
  }

  function UnicodeEscape(c: CodeUnit): Text {
    [BACKSLASH, 'u' as int, HexDigit(c / 0x1000), HexDigit(c / 0x100 % 16), HexDigit(c / 0x10 % 16), HexDigit(c % 16)]
  }

  /** One code unit as `JSON.stringify` writes it outside a surrogate pair. */
  function EscapeUnit(c: CodeUnit): (t: Text)
    ensures t != []
  {
    if c == QUOTE || c == BACKSLASH then [BACKSLASH, c]
    else if c == 8 then [BACKSLASH, 'b' as int]
    else if c == 9 then [BACKSLASH, 't' as int]
    else if c == 10 then [BACKSLASH, 'n' as int]
    else if c == 12 then [BACKSLASH, 'f' as int]
    else if c == 13 then [BACKSLASH, 'r' as int]
    else if c < 0x20 || IsHigh(c) || IsLow(c) then UnicodeEscape(c)
    else [c]
  }

  function Escape(s: Text): Text {
    if s == [] then []
    else if |s| >= 2 && IsHigh(s[0]) && IsLow(s[1]) then s[..2] + Escape(s[2..])
    else EscapeUnit(s[0]) + Escape(s[1..])
  }

  /** `JSON.stringify` of a string. */
  function JsonString(s: Text): Text {
    [QUOTE] + Escape(s) + [QUOTE]
  }

  function CanonicalString(nfc: Normaliser, s: Text): Text {
    JsonString(nfc(s))
  }

  // ---------------------------------------------------------------- numbers

  function NatText(n: nat): (t: Text)
    ensures t != [] && AllDigits(t) && Nat(t) == n
  {
    if n < 10 then
      assert [ZERO + n][..0] == [];
      [ZERO + n]
    else
      var t := NatText(n / 10) + [ZERO + n % 10];
      assert t[..|t| - 1] == NatText(n / 10);
      t
  }

  /** `BigInt.prototype.toString`. */
  function IntText(i: int): (t: Text)
    ensures IsAscii(t)
  {
    if i < 0 then [MINUS] + NatText(-i) else NatText(i)
  }

  function CanonicalNumber(n: JsNumber): Result<Text, Error> {
    match n
    case NotFinite => Err(NonFiniteNumber)
    case MinusZero => Ok([ZERO])
    case Finite(text) =>
      if HasE(text) then
        ExpandExponentialNormal(text);
        Ok(ExpandExponential(text).value)
      else Ok(text)
  }

  // ---------------------------------------------------------------- the serialiser

  function Join(parts: seq<Text>): Text {
    if parts == [] then []
    else if |parts| == 1 then parts[0]
    else parts[0] + [COMMA] + Join(parts[1..])
  }

  /** An object property under its normalised key, before and after sorting. */
  datatype Member<T> = Member(key: Text, value: Result<T, Error>)

  function KeyOf<T>(): Member<T> -> Text {
    (m: Member<T>) => m.key
  }

  function Canonicalise(nfc: Normaliser, v: Value): Result<Text, Error>
    decreases v, 0
  {
    match v
    case Undefined => Err(UndefinedValue)
    case Null => Ok(Ascii("null"))
    case Str(s) => Ok(CanonicalString(nfc, s))
    case Bool(b) => Ok(if b then Ascii("true") else Ascii("false"))
    case Number(n) => CanonicalNumber(n)
    case BigInt(i) => Ok(CanonicalString(nfc, IntText(i)))
    case InvalidDate => Err(InvalidTimestamp)
    case Timestamp(iso) => Ok(CanonicalString(nfc, iso))
    case Exact(canonical) => Ok(canonical)
    case Arr(elems) =>
      (match CanonicaliseAll(nfc, elems)
       case Ok(parts) => Ok([LBRACKET] + Join(parts) + [RBRACKET])
       case Err(e) => Err(e))
    case Obj(entries) =>
      (match MemberTexts(nfc, SortBy(Members(nfc, entries), KeyOf()))
       case Ok(parts) => Ok([LBRACE] + Join(parts) + [RBRACE])
       case Err(e) => Err(e))
    case Unsupported => Err(UnsupportedType)
  }

  function CanonicaliseAll(nfc: Normaliser, vs: seq<Value>): (r: Result<seq<Text>, Error>)
    decreases vs, 1
  {
    if vs == [] then Ok([])
    else if vs[0] == Undefined then Err(UndefinedElement)
    else
      match Canonicalise(nfc, vs[0])
      case Err(e) => Err(e)
      case Ok(t) =>
        match CanonicaliseAll(nfc, vs[1..])
        case Err(e) => Err(e)
        case Ok(ts) => Ok([t] + ts)
  }

  /** Properties whose value is not undefined, under their normalised keys, in insertion order. */
  function Members(nfc: Normaliser, entries: seq<Entry>): seq<Member<Text>>
    decreases entries, 1
  {
    if entries == [] then []
    else if entries[0].value == Undefined then Members(nfc, entries[1..])
    else [Member(nfc(entries[0].key), Canonicalise(nfc, entries[0].value))] + Members(nfc, entries[1..])
  }

  function MemberTexts(nfc: Normaliser, ms: seq<Member<Text>>): Result<seq<Text>, Error> {
    if ms == [] then Ok([])
    else
      match ms[0].value
      case Err(e) => Err(e)
      case Ok(t) =>
        match MemberTexts(nfc, ms[1..])
        case Err(e) => Err(e)
        case Ok(ts) => Ok([CanonicalString(nfc, ms[0].key) + [COLON] + t] + ts)
  }
}

/**
 Decimal digit strings, their rational values, and the two normalisers of the canonical serialiser:
 the `CanonicalDecimal` constructor and `expandExponential`.
 */
module Decimals {
  import opened Wrappers
  import opened Texts

  const ZERO: CodeUnit := '0' as int
  const MINUS: CodeUnit := '-' as int
  const PLUS: CodeUnit := '+' as int
  const POINT: CodeUnit := '.' as int
  const LOWER_E: CodeUnit := 'e' as int
  const UPPER_E: CodeUnit := 'E' as int

  predicate IsDigit(c: CodeUnit) {
    ZERO <= c <= ZERO + 9
  }

  predicate AllDigits(t: Text) {
    forall i | 0 <= i < |t| :: IsDigit(t[i])
  }

  // ---------------------------------------------------------------- digit strings as numbers

  function Pow10(n: nat): (p: int)
    ensures p >= 1
  {
    if n == 0 then 1 else 10 * Pow10(n - 1)
  }

  /** The number a digit string spells. */
  function Nat(t: Text): (n: nat)
    requires AllDigits(t)
  {
    if t == [] then 0 else 10 * Nat(t[..|t| - 1]) + (t[|t| - 1] - ZERO)
  }

  function Zeros(n: nat): (t: Text)
    ensures |t| == n && AllDigits(t) && forall i | 0 <= i < n :: t[i] == ZERO
  {
    seq<CodeUnit>(n, i => ZERO)
  }

  lemma {:induction false} Pow10Sum(m: nat, n: nat)
    ensures Pow10(m + n) == Pow10(m) * Pow10(n)
  {
    if n != 0 {
      Pow10Sum(m, n - 1);
      assert Pow10(m + n) == 10 * Pow10(m + n - 1);
    }
  }

  lemma Pow10Monotone(m: nat, n: nat)
    requires m <= n
    ensures Pow10(m) <= Pow10(n)
  {
    Pow10Sum(m, n - m);
    assert Pow10(m) * Pow10(n - m) >= Pow10(m) * 1;
  }

  lemma NatAppend(a: Text, c: CodeUnit)
    requires AllDigits(a) && IsDigit(c)
    ensures AllDigits(a + [c]) && Nat(a + [c]) == 10 * Nat(a) + (c - ZERO)
  {
    assert (a + [c])[..|a|] == a;
  }

  lemma NextPlace(n: int, p: int, x: int, d: int)
    ensures 10 * (n * p + x) + d == n * (10 * p) + (10 * x + d)
  {
  }

  lemma {:induction false} NatConcat(a: Text, b: Text)
    requires AllDigits(a) && AllDigits(b)
    ensures AllDigits(a + b) && Nat(a + b) == Nat(a) * Pow10(|b|) + Nat(b)
  {
    if b == [] {
      assert a + b == a;
    } else {
      var init, last := b[..|b| - 1], b[|b| - 1];
      NatConcat(a, init);
      NatAppend(init, last);
      NatAppend(a + init, last);
      assert b == init + [last] && a + b == (a + init) + [last];
      NextPlace(Nat(a), Pow10(|init|), Nat(init), last - ZERO);
    }
  }

  lemma {:induction false} NatBound(t: Text)
    requires AllDigits(t)
    ensures Nat(t) < Pow10(|t|)
  {
    if t != [] {
      NatBound(t[..|t| - 1]);
    }
  }

  lemma {:induction false} NatZeros(n: nat)
    ensures Nat(Zeros(n)) == 0
  {
    if n != 0 {
      assert Zeros(n)[..n - 1] == Zeros(n - 1);
      NatZeros(n - 1);
    }
  }

  lemma {:induction false} NatInjective(a: Text, b: Text)
    requires AllDigits(a) && AllDigits(b) && |a| == |b| && Nat(a) == Nat(b)
    ensures a == b
  {
    if a != [] {
      NatInjective(a[..|a| - 1], b[..|b| - 1]);
      assert a == a[..|a| - 1] + [a[|a| - 1]] && b == b[..|b| - 1] + [b[|b| - 1]];
    }
  }

  lemma DigitValue(c: CodeUnit)
    requires IsDigit(c)
    ensures Nat([c]) == c - ZERO
  {
    assert [c][..0] == [];
  }

  lemma AtLeastOnce(x: int, p: int)
    requires x >= 1 && p >= 1
    ensures x * p >= p
  {
  }

  /** A leading nonzero digit bounds the number from below. */
  lemma NatLowerBound(t: Text)
    requires AllDigits(t) && t != [] && t[0] != ZERO
    ensures Nat(t) >= Pow10(|t| - 1)
  {
    NatConcat([t[0]], t[1..]);
    assert t == [t[0]] + t[1..];
    DigitValue(t[0]);
    AtLeastOnce(Nat([t[0]]), Pow10(|t| - 1));
  }

  predicate NoLeadingZero(t: Text) {
    t != [] && (|t| > 1 ==> t[0] != ZERO)
  }

  lemma LongerIsLarger(a: Text, b: Text)
    requires AllDigits(a) && AllDigits(b) && NoLeadingZero(b) && 0 < |a| < |b|
    ensures Nat(a) < Nat(b)
  {
    NatBound(a);
    NatLowerBound(b);
    Pow10Monotone(|a|, |b| - 1);
  }

  lemma NatInjectiveNoLeadingZero(a: Text, b: Text)
    requires AllDigits(a) && AllDigits(b) && NoLeadingZero(a) && NoLeadingZero(b) && Nat(a) == Nat(b)
    ensures a == b
  {
    if |a| < |b| {
      LongerIsLarger(a, b);
    } else if |b| < |a| {
      LongerIsLarger(b, a);
    } else {
      NatInjective(a, b);
    }
  }

  // ---------------------------------------------------------------- plain decimal texts

  /** `-?DIGITS(.DIGITS)?`; `frac` is empty when there is no fractional part. */
  datatype Decimal = Decimal(neg: bool, whole: Text, frac: Text) {

    predicate Valid() {
      AllDigits(whole) && AllDigits(frac) && whole != []
    }

    predicate IsZero()
      requires Valid()
    {
      Nat(whole + frac) == 0
    }

    function Digits(): (n: nat)
      requires Valid()
    {
      Nat(whole + frac)
    }

    function Magnitude(): real
      requires Valid()
    {
      Digits() as real / Pow10(|frac|) as real
    }

    /** The exact rational denoted. */
    function Value(): real
      requires Valid()
    {
      if neg then -Magnitude() else Magnitude()
    }

    function Render(): Text {
      (if neg then [MINUS] else []) + whole + (if frac == [] then [] else [POINT] + frac)
    }

    /** No superfluous zeros, no minus zero. */
    predicate Normal() {
      && Valid()
      && NoLeadingZero(whole)
      && (frac != [] ==> frac[|frac| - 1] != ZERO)
      && (neg ==> !IsZero())
    }
  }

  /** Length of the longest digit prefix. */
  function DigitSpan(t: Text): (n: nat)
    ensures n <= |t| && AllDigits(t[..n])
    ensures n < |t| ==> !IsDigit(t[n])
  {
    if t == [] || !IsDigit(t[0]) then 0
    else
      var n := 1 + DigitSpan(t[1..]);
      assert t[..n] == [t[0]] + t[1..][..n - 1];
      n
  }

  lemma {:induction false} DigitSpanOf(a: Text, b: Text)
    requires AllDigits(a) && (b == [] || !IsDigit(b[0]))
    ensures DigitSpan(a + b) == |a|
  {
    if a == [] {
      assert a + b == b;
    } else {
      assert (a + b)[1..] == a[1..] + b;
      DigitSpanOf(a[1..], b);
    }
  }

  /** `DIGITS(.DIGITS)?`, anchored at both ends. */
  function MatchUnsigned(t: Text, neg: bool): (r: Option<Decimal>)
    ensures r.Some? ==> r.value.Valid() && r.value.neg == neg
  {
    var n := DigitSpan(t);
    if n == 0 then None
    else if n == |t| then (assert t[..n] == t; Some(Decimal(neg, t, [])))
    else if t[n] == POINT && n + 1 < |t| && DigitSpan(t[n + 1..]) == |t| - n - 1 then
      assert t[n + 1..][..|t| - n - 1] == t[n + 1..];
      Some(Decimal(neg, t[..n], t[n + 1..]))
    else None
  }

  /** `-?DIGITS(.DIGITS)?`, anchored at both ends. */
  function MatchDecimal(t: Text): (r: Option<Decimal>)
    ensures r.Some? ==> r.value.Valid()
  {
    if t != [] && t[0] == MINUS then MatchUnsigned(t[1..], true) else MatchUnsigned(t, false)
  }

  lemma MatchWhole(whole: Text, neg: bool)
    requires whole != [] && AllDigits(whole)
    ensures MatchUnsigned(whole, neg) == Some(Decimal(neg, whole, []))
  {
    DigitSpanOf(whole, []);
    assert whole + [] == whole;
  }

  lemma MatchPoint(whole: Text, frac: Text, neg: bool)
    requires whole != [] && AllDigits(whole) && frac != [] && AllDigits(frac)
    ensures MatchUnsigned(whole + ([POINT] + frac), neg) == Some(Decimal(neg, whole, frac))
  {
    var t := whole + ([POINT] + frac);
    DigitSpanOf(whole, [POINT] + frac);
    DigitSpanOf(frac, []);
    assert frac + [] == frac;
    assert t[..|whole|] == whole && t[|whole| + 1..] == frac;
  }

  function Unsigned(whole: Text, frac: Text): Text {
    if frac == [] then whole else whole + ([POINT] + frac)
  }

  lemma MatchBody(whole: Text, frac: Text, neg: bool)
    requires whole != [] && AllDigits(whole) && AllDigits(frac)
    ensures MatchUnsigned(Unsigned(whole, frac), neg) == Some(Decimal(neg, whole, frac))
  {
    if frac == [] {
      MatchWhole(whole, neg);
    } else {
      MatchPoint(whole, frac, neg);
    }
  }

  lemma MatchSign(body: Text)
    requires body != [] && IsDigit(body[0])
    ensures MatchDecimal([MINUS] + body) == MatchUnsigned(body, true)
    ensures MatchDecimal(body) == MatchUnsigned(body, false)
  {
    assert ([MINUS] + body)[1..] == body;
  }

  lemma RenderParts(d: Decimal)
    requires d.Valid()
    ensures d.Render() == (if d.neg then [MINUS] else []) + Unsigned(d.whole, d.frac)
    ensures Unsigned(d.whole, d.frac) != [] && IsDigit(Unsigned(d.whole, d.frac)[0])
  {
  }

  lemma MatchRender(d: Decimal)
    requires d.Valid()
    ensures MatchDecimal(d.Render()) == Some(d)
  {
    var body := Unsigned(d.whole, d.frac);
    RenderParts(d);
    MatchSign(body);
    MatchBody(d.whole, d.frac, d.neg);
    assert [] + body == body;
  }

  lemma RenderUnsigned(u: Text, neg: bool)
    requires MatchUnsigned(u, neg).Some?
    ensures MatchUnsigned(u, neg).value.Render() == (if neg then [MINUS] else []) + u
  {
    var n := DigitSpan(u);
    if n < |u| {
      assert u == u[..n] + ([POINT] + u[n + 1..]);
    }
  }

  lemma RenderMatch(t: Text)
    requires MatchDecimal(t).Some?
    ensures MatchDecimal(t).value.Render() == t
  {
    if t != [] && t[0] == MINUS {
      RenderUnsigned(t[1..], true);
      assert t == [MINUS] + t[1..];
    } else {
      RenderUnsigned(t, false);
    }
  }

  // ---------------------------------------------------------------- CanonicalDecimal

  function StripLeadingZeros(t: Text): (r: Text)
    requires AllDigits(t) && t != []
    ensures AllDigits(r) && NoLeadingZero(r)
  {
    if |t| > 1 && t[0] == ZERO then StripLeadingZeros(t[1..]) else t
  }

  function StripTrailingZeros(t: Text): (r: Text)
    ensures r <= t
    ensures r != [] ==> r[|r| - 1] != ZERO
  {
    if t != [] && t[|t| - 1] == ZERO then StripTrailingZeros(t[..|t| - 1]) else t
  }

  /** The `CanonicalDecimal` constructor's `canonical` field; `None` where it throws. */
  function CanonicalDecimal(raw: Text): Option<Text> {
    match MatchDecimal(raw)
    case None => None
    case Some(d) =>
      var whole := StripLeadingZeros(d.whole);
      var frac := StripTrailingZeros(d.frac);
      var isZero := whole == [ZERO] && frac == [];
      var body := if frac != [] then whole + [POINT] + frac else whole;
      Some((if d.neg && !isZero then [MINUS] else []) + body)
  }

  predicate IsNormalText(t: Text) {
    MatchDecimal(t).Some? && MatchDecimal(t).value.Normal()
  }

  // ---------------------------------------------------------------- values are preserved

  lemma Ratio(n: int, p: int, m: int)
    requires p > 0 && m > 0
    ensures p * m > 0
    ensures (n * m) as real / (p * m) as real == n as real / p as real
  {
    var q := n as real / p as real;
    assert q * p as real == n as real;
    assert (p * m) as real == p as real * m as real;
    assert (n * m) as real == n as real * m as real;
    assert q * (p as real * m as real) == (q * p as real) * m as real;
  }

  lemma {:induction false} StripLeadingKeepsNat(t: Text)
    requires AllDigits(t) && t != []
    ensures Nat(StripLeadingZeros(t)) == Nat(t)
  {
    if |t| > 1 && t[0] == ZERO {
      StripLeadingKeepsNat(t[1..]);
      assert t == [ZERO] + t[1..];
      NatConcat([ZERO], t[1..]);
      assert [ZERO][..0] == [];
    }
  }

  lemma {:induction false} StripTrailingKeepsValue(neg: bool, whole: Text, frac: Text)
    requires Decimal(neg, whole, frac).Valid()
    ensures Decimal(neg, whole, StripTrailingZeros(frac)).Valid()
    ensures Decimal(neg, whole, StripTrailingZeros(frac)).Value() == Decimal(neg, whole, frac).Value()
  {
    if frac != [] && frac[|frac| - 1] == ZERO {
      var shorter := frac[..|frac| - 1];
      StripTrailingKeepsValue(neg, whole, shorter);
      assert (whole + frac)[..|whole + frac| - 1] == whole + shorter;
      Ratio(Nat(whole + shorter), Pow10(|shorter|), 10);
    }
  }

  lemma SameDigitsSameValue(d: Decimal, whole: Text)
    requires d.Valid() && AllDigits(whole) && whole != [] && Nat(whole) == Nat(d.whole)
    ensures d.(whole := whole).Valid() && d.(whole := whole).Value() == d.Value()
  {
    NatConcat(d.whole, d.frac);
    NatConcat(whole, d.frac);
  }

  /** The parsed digit string without its superfluous zeros. */
  function Normalise(d: Decimal): (e: Decimal)
    requires d.Valid()
    ensures e.Valid()
  {
    var whole := StripLeadingZeros(d.whole);
    var frac := StripTrailingZeros(d.frac);
    Decimal(d.neg && !(whole == [ZERO] && frac == []), whole, frac)
  }

  lemma NormaliseValue(d: Decimal)
    requires d.Valid()
    ensures Normalise(d).Normal() && Normalise(d).Value() == d.Value()
  {
    var whole := StripLeadingZeros(d.whole);
    StripLeadingKeepsNat(d.whole);
    SameDigitsSameValue(d, whole);
    StripTrailingKeepsValue(d.neg, whole, d.frac);
    ZeroDigits(Normalise(d));
  }

  /** The text is an optional minus sign, digits, and possibly a point and more digits. */
  ghost predicate IsPlainDecimal(t: Text) {
    exists d: Decimal :: d.Valid() && t == d.Render()
  }

  /** The constructor accepts exactly the plain decimal texts. */
  lemma CanonicalDecimalAcceptsIff(raw: Text)
    ensures CanonicalDecimal(raw).Some? <==> IsPlainDecimal(raw)
  {
    if MatchDecimal(raw).Some? {
      RenderMatch(raw);
      RendersNormalised(raw);
    }
    if IsPlainDecimal(raw) {
      var d: Decimal :| d.Valid() && raw == d.Render();
      MatchRender(d);
      RendersNormalised(raw);
    }
  }

  /** The constructor's text denotes the number it was given, in normal form. */
  lemma CanonicalDecimalValue(raw: Text)
    requires MatchDecimal(raw).Some?
    ensures CanonicalDecimal(raw).Some? && IsNormalText(CanonicalDecimal(raw).value)
    ensures MatchDecimal(CanonicalDecimal(raw).value).value.Value() == MatchDecimal(raw).value.Value()
  {
    var d := MatchDecimal(raw).value;
    NormaliseValue(d);
    MatchRender(Normalise(d));
    RendersNormalised(raw);
  }

  lemma RendersNormalised(raw: Text)
    requires MatchDecimal(raw).Some?
    ensures CanonicalDecimal(raw) == Some(Normalise(MatchDecimal(raw).value).Render())
  {
    var e := Normalise(MatchDecimal(raw).value);
    var sign := if e.neg then [MINUS] else [];
    var tail := if e.frac == [] then [] else [POINT] + e.frac;
    assert sign + (e.whole + tail) == sign + e.whole + tail;
    assert e.frac != [] ==> e.whole + [POINT] + e.frac == e.whole + tail;
    assert e.frac == [] ==> e.whole == e.whole + tail;
  }

  /** A decimal without superfluous zeros is zero exactly when it is written `0`. */
  lemma ZeroDigits(e: Decimal)
    requires e.Valid() && NoLeadingZero(e.whole) && (e.frac != [] ==> e.frac[|e.frac| - 1] != ZERO)
    ensures e.IsZero() <==> e.whole == [ZERO] && e.frac == []
  {
    NatConcat(e.whole, e.frac);
    if e.frac != [] {
      assert Nat(e.frac) >= 1;
      assert Nat(e.whole) * Pow10(|e.frac|) >= 0;
    } else {
      assert e.whole + e.frac == e.whole;
      if e.whole[0] != ZERO {
        NatLowerBound(e.whole);
      } else {
        assert e.whole == [ZERO];
        assert [ZERO][..0] == [];
      }
    }
  }

  // ---------------------------------------------------------------- one text per value

  lemma CrossMultiply(m: int, p: int, n: int, q: int)
    requires p > 0 && q > 0 && m as real / p as real == n as real / q as real
    ensures m * q == n * p
  {
    var v := m as real / p as real;
    assert v * p as real == m as real && v * q as real == n as real;
    assert (m * q) as real == m as real * q as real;
    assert (n * p) as real == n as real * p as real;
    assert m as real * q as real == v * p as real * q as real == n as real * p as real;
  }

  /** With a longer fraction on one side, the longer one would end in a zero. */
  lemma SameScale(d: Decimal, e: Decimal)
    requires d.Normal() && e.Normal()
    requires d.Digits() * Pow10(|e.frac|) == e.Digits() * Pow10(|d.frac|)
    ensures |d.frac| >= |e.frac|
  {
    if |d.frac| < |e.frac| {
      var k := |e.frac| - |d.frac|;
      Pow10Sum(|d.frac|, k);
      ScaleOut(d.Digits(), e.Digits(), Pow10(|d.frac|), Pow10(k - 1));
      LastDigit(e);
    }
  }

  lemma ScaleOut(m: int, n: int, p: int, k: int)
    requires p > 0 && m * (p * (10 * k)) == n * p
    ensures n == 10 * (m * k)
  {
    assert m * (p * (10 * k)) == (10 * (m * k)) * p;
    Cancel(10 * (m * k), n, p);
  }

  lemma LastDigit(e: Decimal)
    requires e.Valid() && e.frac != [] && e.frac[|e.frac| - 1] != ZERO
    ensures e.Digits() % 10 != 0
  {
    var w := e.whole + e.frac;
    assert w[|w| - 1] == e.frac[|e.frac| - 1];
  }

  lemma Cancel(a: int, b: int, p: int)
    requires p > 0 && a * p == b * p
    ensures a == b
  {
    SplitUnique(a, 0, b, 0, p);
  }

  lemma SplitUnique(a: int, r: int, b: int, s: int, p: int)
    requires 0 <= r < p && 0 <= s < p && a * p + r == b * p + s
    ensures a == b && r == s
  {
    if a < b {
      AtLeastOnce(b - a, p);
      Distribute(b, a, p);
    } else if b < a {
      AtLeastOnce(a - b, p);
      Distribute(a, b, p);
    }
  }

  lemma Distribute(a: int, b: int, p: int)
    ensures (a - b) * p == a * p - b * p
  {
  }

  /** Two normal decimals denoting the same rational are the same digit string. */
  lemma NormalUnique(d: Decimal, e: Decimal)
    requires d.Normal() && e.Normal() && d.Value() == e.Value()
    ensures d == e
  {
    var p, q := Pow10(|d.frac|), Pow10(|e.frac|);
    assert d.neg == e.neg by {
      if d.neg != e.neg {
        SignedZero(d.Digits(), p, e.Digits(), q);
      }
    }
    CrossMultiply(d.Digits(), p, e.Digits(), q);
    SameScale(d, e);
    SameScale(e, d);
    Cancel(d.Digits(), e.Digits(), p);
    NatConcat(d.whole, d.frac);
    NatConcat(e.whole, e.frac);
    NatBound(d.frac);
    NatBound(e.frac);
    SplitUnique(Nat(d.whole), Nat(d.frac), Nat(e.whole), Nat(e.frac), p);
    NatInjectiveNoLeadingZero(d.whole, e.whole);
    NatInjective(d.frac, e.frac);
  }

  lemma SignedZero(m: nat, p: int, n: nat, q: int)
    requires p > 0 && q > 0
    requires m as real / p as real == -(n as real / q as real)
    ensures m == 0 && n == 0
  {
    assert n as real / q as real >= 0.0;
    assert m as real / p as real >= 0.0;
    assert m as real / p as real == 0.0;
    assert m as real == (m as real / p as real) * p as real;
    assert n as real == (n as real / q as real) * q as real;
  }

  /** `CanonicalDecimal` texts agree exactly when the numbers do. */
  lemma CanonicalDecimalSameTextIff(a: Text, b: Text)
    requires MatchDecimal(a).Some? && MatchDecimal(b).Some?
    ensures CanonicalDecimal(a) == CanonicalDecimal(b)
            <==> MatchDecimal(a).value.Value() == MatchDecimal(b).value.Value()
  {
    CanonicalDecimalValue(a);
    CanonicalDecimalValue(b);
    NormalTextUnique(CanonicalDecimal(a).value, CanonicalDecimal(b).value);
  }

  lemma NormalTextUnique(a: Text, b: Text)
    requires IsNormalText(a) && IsNormalText(b)
    ensures a == b <==> MatchDecimal(a).value.Value() == MatchDecimal(b).value.Value()
  {
    if MatchDecimal(a).value.Value() == MatchDecimal(b).value.Value() {
      NormalUnique(MatchDecimal(a).value, MatchDecimal(b).value);
      RenderMatch(a);
      RenderMatch(b);
    }
  }

  /** Re-normalising changes nothing; the normal texts are exactly the fixed points. */
  lemma CanonicalDecimalIdempotent(raw: Text)
    ensures CanonicalDecimal(raw) == Some(raw) <==> IsNormalText(raw)
    ensures CanonicalDecimal(raw).Some?
            ==> CanonicalDecimal(CanonicalDecimal(raw).value) == CanonicalDecimal(raw)
  {
    if MatchDecimal(raw).Some? {
      var c := CanonicalDecimal(raw).value;
      CanonicalDecimalValue(raw);
      CanonicalDecimalValue(c);
      NormalTextUnique(c, CanonicalDecimal(c).value);
      if IsNormalText(raw) {
        NormalTextUnique(raw, c);
      }
    }
  }
}

/**
 How the canonical serialiser writes a JavaScript number: `Number.toString` is given as text and
 exponential notation is expanded to plain digits.
 */
module NumberTexts {
  import opened Wrappers
  import opened Texts
  import opened Decimals

  // ---------------------------------------------------------------- exponential notation

  /** `-?DIGITS(.DIGITS)?e[+-]DIGITS`: a mantissa and a power of ten. */
  datatype Exponential = Exponential(mantissa: Decimal, exponent: int) {

    function Value(): real
      requires mantissa.Valid()
    {
      Scale(mantissa.Value(), exponent)
    }
  }

  /** `v` times ten to the `e`. */
  function Scale(v: real, e: int): real {
    if e >= 0 then v * Pow10(e) as real else v / Pow10(-e) as real
  }

  /** Position of the first `e` or `E`, or the length. */
  function FindE(t: Text): (n: nat)
    ensures n <= |t|
    ensures n < |t| ==> t[n] == LOWER_E || t[n] == UPPER_E
    ensures forall i | 0 <= i < n :: t[i] != LOWER_E && t[i] != UPPER_E
  {
    if t == [] || t[0] == LOWER_E || t[0] == UPPER_E then 0 else 1 + FindE(t[1..])
  }

  predicate HasE(t: Text) {
    FindE(t) < |t|
  }

  function MatchExponential(t: Text): (r: Option<Exponential>)
    ensures r.Some? ==> r.value.mantissa.Valid()
  {
    var n := FindE(t);
    if n == |t| || n + 2 >= |t| then None else MatchParts(t[..n], t[n + 1], t[n + 2..])
  }

  function MatchParts(mantissa: Text, sign: CodeUnit, digits: Text): (r: Option<Exponential>)
    ensures r.Some? ==> r.value.mantissa.Valid()
  {
    if (sign != PLUS && sign != MINUS) || !AllDigits(digits) then None
    else
      match MatchDecimal(mantissa)
      case None => None
      case Some(m) =>
        var e: int := Nat(digits);
        Some(Exponential(m, if sign == MINUS then -e else e))
  }

  lemma {:induction false} FindEBehind(a: Text, rest: Text)
    requires forall i | 0 <= i < |a| :: a[i] != LOWER_E && a[i] != UPPER_E
    requires rest != [] && rest[0] == LOWER_E
    ensures FindE(a + rest) == |a|
  {
    if a == [] {
      assert a + rest == rest;
    } else {
      assert (a + rest)[1..] == a[1..] + rest;
      FindEBehind(a[1..], rest);
    }
  }

  function Exponent(n: nat, up: bool): int {
    if up then n else 0 - n as int
  }

  lemma PartsMatch(mantissa: Text, up: bool, digits: Text)
    requires MatchDecimal(mantissa).Some? && AllDigits(digits)
    ensures MatchParts(mantissa, if up then PLUS else MINUS, digits)
            == Some(Exponential(MatchDecimal(mantissa).value, Exponent(Nat(digits), up)))
  {
  }

  lemma SplitAtE(mantissa: Text, sign: CodeUnit, digits: Text)
    requires digits != [] && forall i | 0 <= i < |mantissa| :: mantissa[i] != LOWER_E && mantissa[i] != UPPER_E
    ensures MatchExponential(mantissa + ([LOWER_E, sign] + digits)) == MatchParts(mantissa, sign, digits)
  {
    var rest := [LOWER_E, sign] + digits;
    var t := mantissa + rest;
    FindEBehind(mantissa, rest);
    assert t[..|mantissa|] == mantissa && t[|mantissa| + 2..] == digits && t[|mantissa| + 1] == rest[1];
  }

  lemma ExponentialParts(mantissa: Text, up: bool, digits: Text)
    requires MatchDecimal(mantissa).Some? && AllDigits(digits) && digits != []
    requires forall i | 0 <= i < |mantissa| :: mantissa[i] != LOWER_E && mantissa[i] != UPPER_E
    ensures MatchExponential(mantissa + ([LOWER_E, if up then PLUS else MINUS] + digits))
            == Some(Exponential(MatchDecimal(mantissa).value, Exponent(Nat(digits), up)))
  {
    SplitAtE(mantissa, if up then PLUS else MINUS, digits);
    PartsMatch(mantissa, up, digits);
  }

  lemma MantissaPlain(mantissa: Text)
    requires MatchDecimal(mantissa).Some?
    ensures forall i | 0 <= i < |mantissa| :: mantissa[i] != LOWER_E && mantissa[i] != UPPER_E
  {
    RenderMatch(mantissa);
    RenderedHasNoE(MatchDecimal(mantissa).value);
  }

  /** `replace(/0+$/, '').replace(/\.$/, '')`, applied only to a text with a point in it. */
  function TrimFraction(t: Text): Text {
    if POINT !in t then t
    else
      var r := StripTrailingZeros(t);
      if r != [] && r[|r| - 1] == POINT then r[..|r| - 1] else r
  }

  /** The digits of the mantissa with the point moved by the exponent, before trimming. */
  function Shifted(x: Exponential): (d: Decimal)
    requires x.mantissa.Valid()
    ensures d.Valid() && !d.neg
  {
    var digits := x.mantissa.whole + x.mantissa.frac;
    var pointPos := |x.mantissa.whole| + x.exponent;
    if pointPos <= 0 then Decimal(false, [ZERO], Zeros(-pointPos) + digits)
    else if pointPos >= |digits| then Decimal(false, digits + Zeros(pointPos - |digits|), [])
    else Decimal(false, digits[..pointPos], digits[pointPos..])
  }

  /** `expandExponential`; `None` where it throws. */
  function ExpandExponential(t: Text): Option<Text> {
    match MatchExponential(t)
    case None => None
    case Some(x) => Some((if x.mantissa.neg then [MINUS] else []) + TrimFraction(Shifted(x).Render()))
  }

  // ---------------------------------------------------------------- the expansion keeps the value

  /** Moving the point scales the value by the power of ten. */
  lemma ShiftedDigits(x: Exponential)
    requires x.mantissa.Valid()
    ensures var d := Shifted(x); var k := |x.mantissa.frac| - x.exponent;
            if k >= 0 then d.Digits() == x.mantissa.Digits() && |d.frac| == k
            else d.Digits() == x.mantissa.Digits() * Pow10(-k) && d.frac == []
  {
    var digits := x.mantissa.whole + x.mantissa.frac;
    var pointPos := |x.mantissa.whole| + x.exponent;
    if pointPos <= 0 {
      var z := Zeros(-pointPos);
      assert [ZERO] + (z + digits) == Zeros(1 - pointPos) + digits;
      NatConcat(Zeros(1 - pointPos), digits);
      NatZeros(1 - pointPos);
    } else if pointPos >= |digits| {
      var z := Zeros(pointPos - |digits|);
      NatConcat(digits, z);
      NatZeros(|z|);
      assert digits + z + [] == digits + z;
      assert digits + Zeros(0) == digits;
    } else {
      assert digits[..pointPos] + digits[pointPos..] == digits;
    }
  }

  lemma CastProduct(a: int, b: int)
    ensures (a * b) as real == a as real * b as real
  {
  }

  lemma DivDiv(n: real, p: real, q: real)
    requires p > 0.0 && q > 0.0
    ensures p * q > 0.0 && n / p / q == n / (p * q)
  {
    var v := n / p / q;
    assert v * q == n / p;
    assert v * q * p == n;
    assert v * (p * q) == n;
  }

  lemma DivMul(n: real, p: real, q: real)
    requires p > 0.0 && q > 0.0
    ensures p * q > 0.0 && n / (p * q) * q == n / p
  {
    var v := n / (p * q);
    assert v * (p * q) == n;
    assert v * q * p == n;
  }

  lemma MulDiv(n: real, p: real, q: real)
    requires q > 0.0
    ensures n / q * (p * q) == n * p
  {
    assert n / q * q == n;
    assert n / q * (p * q) == (n / q * q) * p;
  }

  lemma ScaledDown(n: nat, f: nat, k: nat)
    ensures n as real / Pow10(f) as real / Pow10(k) as real == n as real / Pow10(f + k) as real
  {
    Pow10Sum(f, k);
    CastProduct(Pow10(f), Pow10(k));
    DivDiv(n as real, Pow10(f) as real, Pow10(k) as real);
  }

  lemma ScaledUp(n: nat, f: nat, k: nat)
    ensures n as real / Pow10(f + k) as real * Pow10(k) as real == n as real / Pow10(f) as real
  {
    Pow10Sum(f, k);
    CastProduct(Pow10(f), Pow10(k));
    DivMul(n as real, Pow10(f) as real, Pow10(k) as real);
  }

  lemma ScaledPast(n: nat, f: nat, k: nat)
    ensures n as real / Pow10(f) as real * Pow10(f + k) as real == (n * Pow10(k)) as real
  {
    Pow10Sum(k, f);
    CastProduct(Pow10(k), Pow10(f));
    CastProduct(n, Pow10(k));
    MulDiv(n as real, Pow10(k) as real, Pow10(f) as real);
  }

  lemma MagnitudeDown(x: Exponential)
    requires x.mantissa.Valid() && x.exponent < 0
    ensures Shifted(x).Magnitude() == Scale(x.mantissa.Magnitude(), x.exponent)
  {
    ShiftedDigits(x);
    ScaledDown(x.mantissa.Digits(), |x.mantissa.frac|, -x.exponent);
  }

  lemma MagnitudeUp(x: Exponential)
    requires x.mantissa.Valid() && 0 <= x.exponent <= |x.mantissa.frac|
    ensures Shifted(x).Magnitude() == Scale(x.mantissa.Magnitude(), x.exponent)
  {
    ShiftedDigits(x);
    ScaledUp(x.mantissa.Digits(), |x.mantissa.frac| - x.exponent, x.exponent);
  }

  lemma MagnitudePast(x: Exponential)
    requires x.mantissa.Valid() && x.exponent > |x.mantissa.frac|
    ensures Shifted(x).Magnitude() == Scale(x.mantissa.Magnitude(), x.exponent)
  {
    var n, f, e := x.mantissa.Digits(), |x.mantissa.frac|, x.exponent;
    ShiftedDigits(x);
    ScaledPast(n, f, e - f);
    assert (n * Pow10(e - f)) as real / Pow10(0) as real == (n * Pow10(e - f)) as real;
  }

  lemma ShiftedMagnitude(x: Exponential)
    requires x.mantissa.Valid()
    ensures Shifted(x).Magnitude() == Scale(x.mantissa.Magnitude(), x.exponent)
  {
    if x.exponent < 0 {
      MagnitudeDown(x);
    } else if x.exponent <= |x.mantissa.frac| {
      MagnitudeUp(x);
    } else {
      MagnitudePast(x);
    }
  }

  lemma ScaleNegates(v: real, e: int)
    ensures Scale(-v, e) == -Scale(v, e)
  {
    if e < 0 {
      NegateQuotient(v, Pow10(-e) as real);
    }
  }

  lemma NegateQuotient(v: real, p: real)
    requires p > 0.0
    ensures -v / p == -(v / p)
  {
    assert -(v / p) * p == -v;
  }

  lemma ShiftedValue(x: Exponential)
    requires x.mantissa.Valid()
    ensures Shifted(x).(neg := x.mantissa.neg).Value() == x.Value()
  {
    ShiftedMagnitude(x);
    ScaleNegates(x.mantissa.Magnitude(), x.exponent);
  }

  lemma {:induction false} StripAfterPoint(a: Text, f: Text)
    ensures StripTrailingZeros(a + [POINT] + f) == a + [POINT] + StripTrailingZeros(f)
  {
    if f != [] && f[|f| - 1] == ZERO {
      var t := a + [POINT] + f;
      assert t[..|t| - 1] == a + [POINT] + f[..|f| - 1];
      StripAfterPoint(a, f[..|f| - 1]);
    }
  }

  lemma LastOfAppended(a: Text, b: Text)
    ensures b != [] ==> (a + b)[|a + b| - 1] == b[|b| - 1]
    ensures (a + b)[..|a|] == a
  {
  }

  lemma TrimAfterPoint(whole: Text, f: Text)
    requires AllDigits(whole) && whole != [] && AllDigits(f)
    ensures
      var g := StripTrailingZeros(f);
      TrimFraction(whole + [POINT] + f) == if g == [] then whole else whole + [POINT] + g
  {
    var t := whole + [POINT] + f;
    var g := StripTrailingZeros(f);
    assert t[|whole|] == POINT;
    StripAfterPoint(whole, f);
    LastOfAppended(whole + [POINT], g);
    LastOfAppended(whole, [POINT]);
    assert whole + [POINT] + [] == whole + [POINT];
  }

  lemma TrimRendered(d: Decimal)
    requires d.Valid() && !d.neg
    ensures TrimFraction(d.Render()) == d.(frac := StripTrailingZeros(d.frac)).Render()
  {
    assert [] + d.whole == d.whole;
    if d.frac == [] {
      assert d.Render() == d.whole;
    } else {
      var g := StripTrailingZeros(d.frac);
      PointAppended(d.whole, d.frac);
      PointAppended(d.whole, g);
      TrimAfterPoint(d.whole, d.frac);
    }
  }

  lemma PointAppended(whole: Text, frac: Text)
    ensures [] + whole + ([POINT] + frac) == whole + [POINT] + frac
    ensures [] + whole + [] == whole
  {
  }

  lemma SignThenBody(d: Decimal)
    ensures (if d.neg then [MINUS] else []) + d.(neg := false).Render() == d.Render()
  {
    var tail := if d.frac == [] then [] else [POINT] + d.frac;
    assert [] + d.whole == d.whole;
    assert [MINUS] + (d.whole + tail) == [MINUS] + d.whole + tail;
    assert [] + (d.whole + tail) == d.whole + tail;
  }

  /** The plain decimal that `expandExponential` writes. */
  function Expanded(x: Exponential): (d: Decimal)
    requires x.mantissa.Valid()
    ensures d.Valid()
  {
    var s := Shifted(x);
    Decimal(x.mantissa.neg, s.whole, StripTrailingZeros(s.frac))
  }

  lemma ExpandsTo(t: Text)
    requires MatchExponential(t).Some?
    ensures ExpandExponential(t) == Some(Expanded(MatchExponential(t).value).Render())
  {
    var x := MatchExponential(t).value;
    TrimRendered(Shifted(x));
    SignThenBody(Expanded(x));
  }

  /** The expanded text parses as a plain decimal of the same value, so no exponent is left in it. */
  lemma ExpandExponentialValue(t: Text)
    requires MatchExponential(t).Some?
    ensures ExpandExponential(t).Some? && MatchDecimal(ExpandExponential(t).value).Some?
    ensures MatchDecimal(ExpandExponential(t).value).value.Value() == MatchExponential(t).value.Value()
    ensures !HasE(ExpandExponential(t).value)
  {
    var x := MatchExponential(t).value;
    var s := Shifted(x);
    ExpandsTo(t);
    MatchRender(Expanded(x));
    StripTrailingKeepsValue(x.mantissa.neg, s.whole, s.frac);
    ShiftedValue(x);
    RenderedHasNoE(Expanded(x));
  }

  lemma RenderedHasNoE(d: Decimal)
    requires d.Valid()
    ensures !HasE(d.Render())
  {
    var r := d.Render();
    forall i | 0 <= i < |r| ensures r[i] != LOWER_E && r[i] != UPPER_E {
    }
  }

  // ---------------------------------------------------------------- JavaScript's number texts

  /** The mantissa `Number.toString` writes: one nonzero digit, no trailing zero in the fraction. */
  predicate IsJsMantissa(m: Decimal) {
    m.Valid() && |m.whole| == 1 && m.whole[0] != ZERO && (m.frac != [] ==> m.frac[|m.frac| - 1] != ZERO)
  }

  /** The texts `Number.toString` produces for finite numbers other than minus zero. */
  predicate IsJsNumberText(t: Text) {
    if HasE(t) then MatchExponential(t).Some? && IsJsMantissa(MatchExponential(t).value.mantissa)
    else IsNormalText(t)
  }

  lemma ZeroIsNormal()
    ensures IsNormalText([ZERO]) && IsJsNumberText([ZERO])
  {
    var d := Decimal(false, [ZERO], []);
    MatchRender(d);
    assert d.Render() == [ZERO];
  }

  ghost function JsNumberValue(t: Text): real
    requires IsJsNumberText(t)
  {
    if HasE(t) then MatchExponential(t).value.Value() else MatchDecimal(t).value.Value()
  }

  /** A mantissa without superfluous zeros leaves none behind. */
  lemma ShiftedNormal(x: Exponential)
    requires IsJsMantissa(x.mantissa)
    ensures Expanded(x) == Shifted(x).(neg := x.mantissa.neg) && Expanded(x).Normal()
  {
    var m, s := x.mantissa, Shifted(x);
    var digits := m.whole + m.frac;
    assert digits[0] != ZERO && digits[|digits| - 1] != ZERO;
    assert s.frac != [] ==> s.frac[|s.frac| - 1] == digits[|digits| - 1];
    ShiftedDigits(x);
    NatLowerBound(digits);
    assert Expanded(x).Digits() > 0 by {
      if |m.frac| < x.exponent {
        AtLeastOnce(m.Digits(), Pow10(x.exponent - |m.frac|));
      }
    }
  }

  /** For the mantissas JavaScript writes, the expansion lands in the `CanonicalDecimal` normal form. */
  lemma ExpandExponentialNormal(t: Text)
    requires IsJsNumberText(t) && HasE(t)
    ensures ExpandExponential(t).Some? && IsNormalText(ExpandExponential(t).value)
  {
    var x := MatchExponential(t).value;
    ExpandsTo(t);
    ShiftedNormal(x);
    MatchRender(Expanded(x));
  }
}

/**
 How strings are written: of all texts without lone surrogates that a JSON reader takes for a string, the
 canonical one is the shortest, and with lower-case hexadecimal digits the only one of its length.
 */
module ShortestStrings {
  import opened Wrappers
  import opened Texts
  import opened CanonicalSerialiser
  import opened JsonText
  import opened CanonicalBytes

  /** Between its quotes, `t` reads as the string `s`. */
  ghost predicate ReadsAs(t: Text, s: Text) {
    ParseChars(t + ['"' as int]) == Some((s, []))
  }

  /** No escape by code unit has an upper-case digit. */
  predicate LowerCaseEscapes(t: Text) {
    if t == [] then true
    else if t[0] != '\\' as int then LowerCaseEscapes(t[1..])
    else if |t| < 2 then true
    else if t[1] == 'u' as int then
      |t| >= 6 && (forall i | 2 <= i < 6 :: !('A' as int <= t[i] <= 'F' as int)) && LowerCaseEscapes(t[6..])
    else LowerCaseEscapes(t[2..])
  }

  // ---------------------------------------------------------------- the length of what is written

  lemma EscapeSplits(s: Text)
    requires s != []
    ensures |Escape(s)| <= |EscapeUnit(s[0])| + |Escape(s[1..])|
    ensures |Escape(s)| == |EscapeUnit(s[0])| + |Escape(s[1..])| ==> Escape(s) == EscapeUnit(s[0]) + Escape(s[1..])
  {
    if |s| >= 2 && IsHigh(s[0]) && IsLow(s[1]) {
      assert s[1..][1..] == s[2..];
      assert Escape(s[1..]) == EscapeUnit(s[1]) + Escape(s[2..]);
    }
  }

  lemma EscapesPair(s: Text)
    requires |s| >= 2 && IsHigh(s[0]) && IsLow(s[1])
    ensures Escape(s) == s[..2] + Escape(s[2..])
  {
  }

  lemma LowerDigit(x: CodeUnit, d: CodeUnit)
    requires HexValue(x) == Some(d) && !('A' as int <= x <= 'F' as int)
    ensures d < 16 && x == HexDigit(d)
  {
  }

  lemma HexParts(a: CodeUnit, b: CodeUnit, c: CodeUnit, d: CodeUnit)
    requires a < 16 && b < 16 && c < 16 && d < 16
    ensures
      var x := a * 0x1000 + b * 0x100 + c * 0x10 + d;
      x < 0x1_0000 && x / 0x1000 == a && x / 0x100 % 16 == b && x / 0x10 % 16 == c && x % 16 == d
  {
    var upper := a * 0x100 + b * 0x10 + c;
    var top := a * 0x10 + b;
    LastDigit(upper, d);
    LastDigit(top, c);
    LastDigit(a, b);
    DigitsOff(16 * upper + d);
  }

  lemma LastDigit(q: int, r: int)
    requires 0 <= r < 16
    ensures (16 * q + r) / 16 == q && (16 * q + r) % 16 == r
  {
  }

  lemma DigitsOff(x: int)
    ensures x / 0x100 == x / 16 / 16 && x / 0x1000 == x / 16 / 16 / 16
  {
  }

  lemma LowerEscape(t: Text, c: CodeUnit)
    requires |t| == 6 && t[0] == '\\' as int && t[1] == 'u' as int && ParseHex4(t[2..]) == Some(c)
    requires forall i | 2 <= i < 6 :: !('A' as int <= t[i] <= 'F' as int)
    ensures t == UnicodeEscape(c)
  {
    var digits := t[2..];
    var w, x, y, z := HexValue(t[2]).value, HexValue(t[3]).value, HexValue(t[4]).value, HexValue(t[5]).value;
    LowerDigit(t[2], w);
    LowerDigit(t[3], x);
    LowerDigit(t[4], y);
    LowerDigit(t[5], z);
    HexParts(w, x, y, z);
    assert t == [t[0], t[1], t[2], t[3], t[4], t[5]];
  }

  lemma {:induction false} PeelAscii(t: Text, n: nat)
    requires n <= |t| && WellPaired(t) && forall i | 0 <= i < n :: t[i] < 0x80
    ensures WellPaired(t[n..])
  {
    if n > 0 {
      PeelAscii(t[1..], n - 1);
      assert t[1..][n - 1..] == t[n..];
    }
  }

  // ---------------------------------------------------------------- one step of the reader

  /** What is written for `s` is no longer than `t`, and is `t` where that is as long and in lower case. */
  ghost predicate IsShortest(t: Text, s: Text) {
    && |Escape(s)| <= |t|
    && (|Escape(s)| == |t| && LowerCaseEscapes(t) ==> t == Escape(s))
  }

  lemma PrependedString(s: Text, c: CodeUnit, r: Option<(Text, Text)>)
    requires Prepend(c, r) == Some((s, []))
    ensures s != [] && s[0] == c && r == Some((s[1..], []))
  {
    assert s == [c] + r.value.0;
  }

  lemma PlainUnit(t: Text, s: Text)
    requires t != [] && s != [] && t[0] == s[0] && EscapeUnit(t[0]) == [t[0]] && t[0] != '\\' as int
    requires !IsHigh(t[0]) && IsShortest(t[1..], s[1..])
    ensures IsShortest(t, s)
  {
    EscapeSplits(s);
    assert t == [t[0]] + t[1..];
  }

  lemma SkipTwo(t: Text)
    requires |t| >= 2 && t[0] != '\\' as int && t[1] != '\\' as int
    ensures LowerCaseEscapes(t) <==> LowerCaseEscapes(t[2..])
  {
    assert t[1..][0] == t[1] && t[1..][1..] == t[2..];
  }

  lemma RawPair(t: Text, s: Text)
    requires |t| >= 2 && |s| >= 2 && t[..2] == s[..2] && IsHigh(t[0]) && IsLow(t[1])
    requires IsShortest(t[2..], s[2..])
    ensures IsShortest(t, s)
  {
    assert t[0] == t[..2][0] == s[..2][0] == s[0] && t[1] == t[..2][1] == s[..2][1] == s[1];
    EscapesPair(s);
    assert t == t[..2] + t[2..];
    SkipTwo(t);
  }

  lemma EscapedSimply(t: Text, s: Text)
    requires |t| >= 2 && s != [] && t[0] == '\\' as int && t[1] != 'u' as int
    requires SimpleEscape(t[1]) == Some(s[0]) && IsShortest(t[2..], s[1..])
    ensures IsShortest(t, s)
  {
    EscapeSplits(s);
    assert t == [t[0], t[1]] + t[2..];
    if |EscapeUnit(s[0])| == 2 {
      assert EscapeUnit(s[0]) == [t[0], t[1]];
    }
  }

  lemma EscapedByUnit(t: Text, s: Text)
    requires |t| >= 6 && s != [] && t[0] == '\\' as int && t[1] == 'u' as int
    requires ParseHex4(t[2..]) == Some(s[0]) && IsShortest(t[6..], s[1..])
    ensures IsShortest(t, s)
  {
    EscapeSplits(s);
    assert t == t[..6] + t[6..];
    if |EscapeUnit(s[0])| == 6 && LowerCaseEscapes(t) {
      assert t[..6][2..] == t[2..6];
      LowerEscape(t[..6], s[0]);
    }
  }

  // ---------------------------------------------------------------- the theorem

  lemma HexDigitsPlain(t: Text)
    requires |t| >= 4 && ParseHex4(t).Some?
    ensures forall i | 0 <= i < 4 :: t[i] < 0x80 && t[i] != '"' as int
  {
  }

  lemma ReadRaw(t: Text, s: Text)
    requires ReadsAs(t, s) && t != [] && t[0] != '\\' as int
    ensures t[0] >= 0x20 && t[0] != '"' as int && s != [] && s[0] == t[0] && ReadsAs(t[1..], s[1..])
  {
    var q := t + ['"' as int];
    assert q[1..] == t[1..] + ['"' as int];
    assert |q[1..]| == |t|;
    PrependedString(s, t[0], ParseChars(q[1..]));
  }

  lemma ReadSimple(t: Text, s: Text)
    requires ReadsAs(t, s) && t != [] && t[0] == '\\' as int && (|t| < 2 || t[1] != 'u' as int)
    ensures |t| >= 2 && s != [] && SimpleEscape(t[1]) == Some(s[0]) && ReadsAs(t[2..], s[1..])
  {
    var q := t + ['"' as int];
    assert q[1] == if |t| < 2 then '"' as int else t[1];
    assert |t| < 2 ==> q[2..] == [];
    PrependedString(s, SimpleEscape(q[1]).value, ParseChars(q[2..]));
    assert |t| >= 2 ==> q[2..] == t[2..] + ['"' as int];
  }

  lemma ReadByUnit(t: Text, s: Text)
    requires ReadsAs(t, s) && |t| >= 2 && t[0] == '\\' as int && t[1] == 'u' as int
    ensures |t| >= 6 && s != [] && ParseHex4(t[2..]) == Some(s[0]) && ReadsAs(t[6..], s[1..])
  {
    var q := t + ['"' as int];
    assert q[|t|] == '"' as int && forall i | 0 <= i < |q| - 2 :: q[2..][i] == q[i + 2];
    HexDigitsPlain(q[2..]);
    PrependedString(s, ParseHex4(q[2..]).value, ParseChars(q[6..]));
    assert q[6..] == t[6..] + ['"' as int] && q[2..][..4] == t[2..][..4];
  }

  /** The string as it is written is the shortest that reads back, and the only such one in lower case. */
  lemma {:induction false} WrittenIsShortest(t: Text, s: Text)
    requires WellPaired(t) && ReadsAs(t, s)
    ensures |Escape(s)| <= |t|
    ensures |Escape(s)| == |t| && LowerCaseEscapes(t) ==> t == Escape(s)
    decreases |t|
  {
    if t == [] {
      ParseClosing([]);
      assert t + ['"' as int] == [QUOTE] + [];
    } else if t[0] != '\\' as int {
      ReadRaw(t, s);
      if IsHigh(t[0]) {
        ReadRaw(t[1..], s[1..]);
        assert t[1..][1..] == t[2..] && s[1..][1..] == s[2..];
        WrittenIsShortest(t[2..], s[2..]);
        assert t[..2] == [t[0], t[1]] && s[..2] == [s[0], s[1]];
        RawPair(t, s);
      } else {
        WrittenIsShortest(t[1..], s[1..]);
        PlainUnit(t, s);
      }
    } else if |t| >= 2 && t[1] == 'u' as int {
      ReadByUnit(t, s);
      HexDigitsPlain(t[2..]);
      forall i | 0 <= i < 6 ensures t[i] < 0x80 {
        if i >= 2 {
          assert t[i] == t[2..][i - 2];
        }
      }
      PeelAscii(t, 6);
      WrittenIsShortest(t[6..], s[1..]);
      EscapedByUnit(t, s);
    } else {
      ReadSimple(t, s);
      PeelAscii(t, 2);
      WrittenIsShortest(t[2..], s[1..]);
      EscapedSimply(t, s);
    }
  }

  lemma LowerUnit(c: CodeUnit, k: Text)
    requires LowerCaseEscapes(k)
    ensures LowerCaseEscapes(EscapeUnit(c) + k)
  {
    var t := EscapeUnit(c) + k;
    if |EscapeUnit(c)| == 1 {
      assert t[1..] == k;
    } else if |EscapeUnit(c)| == 2 {
      assert t[2..] == k;
    } else {
      assert t[6..] == k;
      FourDigits(c);
    }
  }

  lemma {:induction false} EscapeIsLowerCase(s: Text)
    ensures LowerCaseEscapes(Escape(s))
  {
    if s == [] {
    } else if |s| >= 2 && IsHigh(s[0]) && IsLow(s[1]) {
      EscapeIsLowerCase(s[2..]);
      var t := s[..2] + Escape(s[2..]);
      assert t[1..][1..] == Escape(s[2..]);
    } else {
      EscapeIsLowerCase(s[1..]);
      LowerUnit(s[0], Escape(s[1..]));
    }
  }

  /** It reads back itself, without a lone surrogate and in lower case. */
  lemma WrittenReadsBack(s: Text)
    ensures ReadsAs(Escape(s), s) && WellPaired(Escape(s)) && LowerCaseEscapes(Escape(s))
  {
    ParseEscaped(s, []);
    assert [QUOTE] + [] == ['"' as int];
    EscapePaired(s);
    EscapeIsLowerCase(s);
  }
}

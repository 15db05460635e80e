/**
 What a reader finds in the text that is hashed for an audit event: cut at its separators, the columns in their
 places and the digest of the row before in hexadecimal.
 */
module AuditReading {
  import opened Wrappers
  import opened Texts
  import opened AuditContent
  import opened AuditTampering

  /** The text cut at every `|`. */
  function Cut(t: Text): (pieces: seq<Text>)
    ensures |pieces| > 0
  {
    if t == [] then [[]]
    else
      var rest := Cut(t[1..]);
      if t[0] == '|' as int then [[]] + rest else [[t[0]] + rest[0]] + rest[1..]
  }

  lemma {:induction false} CutPlain(t: Text)
    requires BAR !in t
    ensures Cut(t) == [t]
  {
    if t != [] {
      CutPlain(t[1..]);
      assert t == [t[0]] + t[1..];
    }
  }

  lemma {:induction false} CutFirst(a: Text, rest: Text)
    requires BAR !in a
    ensures Cut(a + [BAR] + rest) == [a] + Cut(rest)
  {
    var t := a + [BAR] + rest;
    if a == [] {
      assert t[1..] == rest;
    } else {
      assert t[1..] == a[1..] + [BAR] + rest;
      CutFirst(a[1..], rest);
      var tail := Cut(t[1..]);
      assert tail[0] == a[1..] && tail[1..] == Cut(rest);
      assert a == [a[0]] + a[1..];
    }
  }

  lemma {:induction false} CutJoined(ts: seq<Text>)
    requires |ts| > 0 && BarFree(ts)
    ensures Cut(JoinWithBar(ts)) == ts
  {
    if |ts| == 1 {
      CutPlain(ts[0]);
      assert ts == [ts[0]];
    } else {
      CutJoined(ts[1..]);
      CutFirst(ts[0], JoinWithBar(ts[1..]));
      assert ts == [ts[0]] + ts[1..];
    }
  }

  // ---------------------------------------------------------------- hexadecimal

  function DigitValue(c: CodeUnit): int {
    if '0' as int <= c <= '9' as int then c - '0' as int
    else if 'a' as int <= c <= 'f' as int then c - 'a' as int + 10
    else -1
  }

  /** Two lower-case digits for each byte, the high one first. */
  ghost predicate IsHexOf(t: Text, bytes: seq<Byte>) {
    && |t| == 2 * |bytes|
    && forall i | 0 <= i < |bytes| ::
         && 0 <= DigitValue(t[2 * i]) < 16 && 0 <= DigitValue(t[2 * i + 1]) < 16
         && bytes[i] == 16 * DigitValue(t[2 * i]) + DigitValue(t[2 * i + 1])
  }

  lemma DigitReads(n: int)
    requires 0 <= n < 16
    ensures DigitValue(HexDigit(n)) == n
  {
  }

  lemma {:induction false} HexReads(bytes: seq<Byte>)
    ensures IsHexOf(Hex(bytes), bytes)
  {
    if bytes != [] {
      var t, rest := Hex(bytes), Hex(bytes[1..]);
      HexReads(bytes[1..]);
      DigitReads(bytes[0] / 16);
      DigitReads(bytes[0] % 16);
      forall i | 0 <= i < |bytes|
        ensures 0 <= DigitValue(t[2 * i]) < 16 && 0 <= DigitValue(t[2 * i + 1]) < 16
        ensures bytes[i] == 16 * DigitValue(t[2 * i]) + DigitValue(t[2 * i + 1])
      {
        if i > 0 {
          assert t[2 * i] == rest[2 * (i - 1)] && t[2 * i + 1] == rest[2 * (i - 1) + 1];
        }
      }
    }
  }

  // ---------------------------------------------------------------- the hashed text

  lemma JoinLast(ts: seq<Text>, t: Text)
    requires |ts| > 0
    ensures JoinWithBar(ts + [t]) == JoinWithBar(ts) + [BAR] + t
  {
    JoinSplits(ts, [t]);
  }

  ghost predicate Holds(t: Text, o: Option<Text>) {
    t == if o.Some? then o.value else []
  }

  /** The columns in their places, a missing one empty. */
  ghost predicate AreColumns(pieces: seq<Text>, c: Columns) {
    && |pieces| == 12
    && pieces[0] == c.id && pieces[1] == c.occurredAt && Holds(pieces[2], c.actorId)
    && Holds(pieces[3], c.onBehalfOfId) && pieces[4] == c.action && pieces[5] == c.entityType
    && Holds(pieces[6], c.entityId) && Holds(pieces[7], c.before) && Holds(pieces[8], c.after)
    && Holds(pieces[9], c.sourceIp) && Holds(pieces[10], c.requestId)
  }

  lemma AppendBarFree(ts: seq<Text>, t: Text)
    requires BarFree(ts) && BAR !in t
    ensures BarFree(ts + [t])
  {
  }

  lemma ContentCut(c: Columns, prev: Option<Digest>)
    requires BarFree(ColumnTexts(c))
    ensures Cut(Content(c, prev)) == ColumnTexts(c) + [PrevText(prev)]
  {
    PrevTextInjective(prev, prev);
    JoinLast(ColumnTexts(c), PrevText(prev));
    AppendBarFree(ColumnTexts(c), PrevText(prev));
    CutJoined(ColumnTexts(c) + [PrevText(prev)]);
  }

  lemma PiecesAre(c: Columns, last: Text)
    ensures AreColumns(ColumnTexts(c) + [last], c) && (ColumnTexts(c) + [last])[11] == last
  {
  }

  /** While no column holds the separator, the hashed text is cut into the columns and the predecessor's digest. */
  lemma HashedTextReads(c: Columns, prev: Option<Digest>)
    requires BarFree(ColumnTexts(c))
    ensures
      var pieces := Cut(Content(c, prev));
      AreColumns(pieces, c) && IsHexOf(pieces[11], if prev.Some? then prev.value else [])
  {
    ContentCut(c, prev);
    PiecesAre(c, PrevText(prev));
    HexReads(if prev.Some? then prev.value else []);
  }
}

/**
 What the insert trigger of the audit table stores: the text it hashes, the digest of that text, and
 the digest of the row before.
 */
module AuditContent {
  import opened Wrappers
  import opened Texts

  /** A stored digest; `bytea` is compared byte by byte. */
  type Digest = d: seq<Byte> | |d| > 0 witness [0]

  /** SHA-256, of which only the absence of collisions is used. */
  type HashFunction = Text -> Digest

  const BAR: CodeUnit := 0x7C

  // ---------------------------------------------------------------- the hashed content

  /**
   The hashed columns as Postgres prints them. `sequence` and `created_at` are stored beside them but
   are not part of the hashed text.
   */
  datatype Columns = Columns(
    id: Text,
    occurredAt: Text,
    actorId: Option<Text>,
    onBehalfOfId: Option<Text>,
    action: Text,
    entityType: Text,
    entityId: Option<Text>,
    before: Option<Text>,
    after: Option<Text>,
    sourceIp: Option<Text>,
    requestId: Option<Text>
  )

  function Coalesce(t: Option<Text>): Text {
    match t
    case None => []
    case Some(value) => value
  }

  function ColumnTexts(c: Columns): (ts: seq<Text>)
    ensures |ts| == 11
  {
    [c.id, c.occurredAt, Coalesce(c.actorId), Coalesce(c.onBehalfOfId), c.action, c.entityType,
     Coalesce(c.entityId), Coalesce(c.before), Coalesce(c.after), Coalesce(c.sourceIp),
     Coalesce(c.requestId)]
  }

  /** `concat_ws('|', ...)`. */
  function JoinWithBar(ts: seq<Text>): Text
    requires |ts| > 0
  {
    if |ts| == 1 then ts[0] else ts[0] + [BAR] + JoinWithBar(ts[1..])
  }

  /** `encode(..., 'hex')`. */
  function Hex(bytes: seq<Byte>): Text {
    if bytes == [] then [] else [HexDigit(bytes[0] / 16), HexDigit(bytes[0] % 16)] + Hex(bytes[1..])
  }

  function PrevText(prev: Option<Digest>): Text {
    match prev
    case None => []
    case Some(digest) => Hex(digest)
  }

  function ColumnText(c: Columns): Text {
    JoinWithBar(ColumnTexts(c))
  }

  /** The eleven columns and the predecessor's digest: the one text that is hashed. */
  function Content(c: Columns, prev: Option<Digest>): Text {
    ColumnText(c) + [BAR] + PrevText(prev)
  }

  lemma {:induction false} HexPlain(bytes: seq<Byte>)
    ensures BAR !in Hex(bytes)
  {
    if bytes != [] {
      HexPlain(bytes[1..]);
    }
  }

  lemma {:induction false} HexInjective(a: seq<Byte>, b: seq<Byte>)
    requires Hex(a) == Hex(b)
    ensures a == b
  {
    if a == [] || b == [] {
    } else {
      assert Hex(a)[0] == Hex(b)[0] && Hex(a)[1] == Hex(b)[1];
      assert a[0] / 16 == b[0] / 16 && a[0] % 16 == b[0] % 16;
      assert Hex(a)[2..] == Hex(a[1..]) && Hex(b)[2..] == Hex(b[1..]);
      HexInjective(a[1..], b[1..]);
      assert a == [a[0]] + a[1..] == b;
    }
  }

  lemma PrevTextInjective(p: Option<Digest>, q: Option<Digest>)
    ensures BAR !in PrevText(p)
    ensures PrevText(p) == PrevText(q) <==> p == q
  {
    if p.Some? {
      HexPlain(p.value);
      if q.Some? && PrevText(p) == PrevText(q) {
        HexInjective(p.value, q.value);
      }
    }
  }

  lemma BarInTail(a: Text, p: Text, b: Text, q: Text)
    requires a + [BAR] + p == b + [BAR] + q
    requires |a| < |b|
    ensures BAR in p
  {
    assert (a + [BAR] + p)[|b|] == p[|b| - |a| - 1];
    assert (b + [BAR] + q)[|b|] == BAR;
  }

  lemma SplitAtLastBar(a: Text, p: Text, b: Text, q: Text)
    requires a + [BAR] + p == b + [BAR] + q
    requires BAR !in p && BAR !in q
    ensures a == b && p == q
  {
    if |a| < |b| {
      BarInTail(a, p, b, q);
    } else if |b| < |a| {
      BarInTail(b, q, a, p);
    }
    var s := a + [BAR] + p;
    assert a == s[..|a|] && p == s[|a| + 1..];
    assert b == s[..|b|] && q == s[|b| + 1..];
  }

  /** The predecessor's digest can be read off the end of the hashed text. */
  lemma ContentSame(c: Columns, p: Option<Digest>, d: Columns, q: Option<Digest>)
    ensures Content(c, p) == Content(d, q) <==> ColumnText(c) == ColumnText(d) && p == q
  {
    PrevTextInjective(p, q);
    PrevTextInjective(q, p);
    if Content(c, p) == Content(d, q) {
      SplitAtLastBar(ColumnText(c), PrevText(p), ColumnText(d), PrevText(q));
    }
  }

  // ---------------------------------------------------------------- the table

  datatype Row = Row(
    sequence: int,
    createdAt: int,
    columns: Columns,
    prevHash: Option<Digest>,
    hash: Digest
  )

  function ExpectedHash(hash: HashFunction, row: Row): Digest {
    hash(Content(row.columns, row.prevHash))
  }

  function LastHash(rows: seq<Row>): Option<Digest> {
    if rows == [] then None else Some(rows[|rows| - 1].hash)
  }

  /** What a caller hands to an insert; the trigger fills in the two digests. */
  datatype Insert = Insert(sequence: int, createdAt: int, columns: Columns)

  function Append(hash: HashFunction, rows: seq<Row>, insert: Insert): seq<Row> {
    var prev := LastHash(rows);
    rows + [Row(insert.sequence, insert.createdAt, insert.columns, prev, hash(Content(insert.columns, prev)))]
  }

  /** The table after a run of inserts, one after the other. */
  function Build(hash: HashFunction, inserts: seq<Insert>): (rows: seq<Row>)
    ensures |rows| == |inserts|
  {
    if inserts == [] then []
    else Append(hash, Build(hash, inserts[..|inserts| - 1]), inserts[|inserts| - 1])
  }
}

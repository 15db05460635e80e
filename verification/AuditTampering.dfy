/**
 What the chain check detects: every rearrangement that is not a prefix, every changed digest and
 every changed column text, and exactly which rewrites it cannot see.
 */
module AuditTampering {
  import opened Wrappers
  import opened Texts
  import opened AuditContent
  import opened AuditChain

  function Recompute(hash: HashFunction): Row -> Digest {
    (row: Row) => ExpectedHash(hash, row)
  }

  function PrevOf(table: seq<Row>, i: nat): Option<Digest>
    requires i <= |table|
  {
    if i == 0 then None else Some(table[i - 1].hash)
  }

  predicate Sound(expected: Row -> Digest, table: seq<Row>, i: nat)
    requires i < |table|
  {
    table[i].prevHash == PrevOf(table, i) && expected(table[i]) == table[i].hash
  }

  predicate SoundUpTo(expected: Row -> Digest, table: seq<Row>, n: nat)
    requires n <= |table|
  {
    forall i | 0 <= i < n :: Sound(expected, table, i)
  }

  predicate Intact(expected: Row -> Digest, table: seq<Row>) {
    SoundUpTo(expected, table, |table|)
  }

  /** Row `i` is the least one that is not sound; `i == |table|` when there is none. */
  predicate FirstBroken(expected: Row -> Digest, table: seq<Row>, i: nat) {
    i <= |table| && SoundUpTo(expected, table, i) && (i < |table| ==> !Sound(expected, table, i))
  }

  lemma SoundFollows(expected: Row -> Digest, table: seq<Row>, i: nat)
    requires i < |table|
    ensures Follows(INITIAL_STATE, Scan(expected, table), i) <==> Sound(expected, table, i)
  {}

  /** Where the walk stops is where the table first breaks. */
  lemma WalkFindsFirstBroken(expected: Row -> Digest, table: seq<Row>, i: nat)
    ensures Stop(INITIAL_STATE, Scan(expected, table)) == i <==> FirstBroken(expected, table, i)
  {
    forall i: nat | i < |table|
      ensures Follows(INITIAL_STATE, Scan(expected, table), i) <==> Sound(expected, table, i)
    {
      SoundFollows(expected, table, i);
    }
    if FirstBroken(expected, table, i) {
      StopUnique(INITIAL_STATE, Scan(expected, table), i);
    }
  }

  // ---------------------------------------------------------------- what an intact table is

  function InsertOf(row: Row): Insert {
    Insert(row.sequence, row.createdAt, row.columns)
  }

  function InsertsOf(table: seq<Row>): (inserts: seq<Insert>)
    ensures |inserts| == |table|
  {
    seq(|table|, i requires 0 <= i < |table| => InsertOf(table[i]))
  }

  lemma SoundInPrefix(expected: Row -> Digest, table: seq<Row>, n: nat, i: nat)
    requires i < n <= |table|
    ensures Sound(expected, table[..n], i) <==> Sound(expected, table, i)
  {}

  lemma SoundUpToInPrefix(expected: Row -> Digest, table: seq<Row>, n: nat)
    requires n <= |table|
    ensures SoundUpTo(expected, table, n) <==> Intact(expected, table[..n])
  {
    forall i: nat | i < n ensures Sound(expected, table[..n], i) <==> Sound(expected, table, i) {
      SoundInPrefix(expected, table, n, i);
    }
  }

  /** Cutting off the newest rows leaves no trace. */
  lemma PrefixIntact(expected: Row -> Digest, table: seq<Row>, n: nat)
    requires Intact(expected, table) && n <= |table|
    ensures Intact(expected, table[..n])
  {
    SoundUpToInPrefix(expected, table, n);
  }

  lemma AppendSound(hash: HashFunction, table: seq<Row>, insert: Insert)
    ensures Sound(Recompute(hash), Append(hash, table, insert), |table|)
  {}

  lemma AppendKeeps(hash: HashFunction, table: seq<Row>, insert: Insert)
    requires Intact(Recompute(hash), table)
    ensures Intact(Recompute(hash), Append(hash, table, insert))
    ensures InsertsOf(Append(hash, table, insert)) == InsertsOf(table) + [insert]
  {
    var longer := Append(hash, table, insert);
    assert longer[..|table|] == table;
    AppendSound(hash, table, insert);
    SoundUpToInPrefix(Recompute(hash), longer, |table|);
  }

  lemma {:induction false} BuiltIsIntact(hash: HashFunction, inserts: seq<Insert>)
    ensures Intact(Recompute(hash), Build(hash, inserts))
    ensures InsertsOf(Build(hash, inserts)) == inserts
  {
    if inserts != [] {
      var m := |inserts| - 1;
      BuiltIsIntact(hash, inserts[..m]);
      AppendKeeps(hash, Build(hash, inserts[..m]), inserts[m]);
    }
  }

  lemma {:induction false} IntactIsBuilt(hash: HashFunction, table: seq<Row>)
    requires Intact(Recompute(hash), table)
    ensures table == Build(hash, InsertsOf(table))
  {
    if table != [] {
      var m := |table| - 1;
      PrefixIntact(Recompute(hash), table, m);
      IntactIsBuilt(hash, table[..m]);
      assert InsertsOf(table)[..m] == InsertsOf(table[..m]);
      assert Sound(Recompute(hash), table, m);
      assert table == table[..m] + [table[m]];
    }
  }

  /** The check passes exactly on the tables that inserts alone can produce. */
  lemma IntactIffBuilt(hash: HashFunction, table: seq<Row>)
    ensures Intact(Recompute(hash), table) <==> table == Build(hash, InsertsOf(table))
  {
    BuiltIsIntact(hash, InsertsOf(table));
    if Intact(Recompute(hash), table) {
      IntactIsBuilt(hash, table);
    }
  }

  // ---------------------------------------------------------------- digests tell rows apart

  /** The recomputed digest determines the hashed text and nothing more. */
  ghost predicate Discriminates(expected: Row -> Digest) {
    forall r, s ::
      expected(r) == expected(s) <==> r.prevHash == s.prevHash && ColumnText(r.columns) == ColumnText(s.columns)
  }

  lemma RecomputeDiscriminates(hash: HashFunction)
    requires CollisionFree(hash)
    ensures Discriminates(Recompute(hash))
  {
    forall r: Row, s: Row
      ensures hash(Content(r.columns, r.prevHash)) == hash(Content(s.columns, s.prevHash)) <==>
              r.prevHash == s.prevHash && ColumnText(r.columns) == ColumnText(s.columns)
    {
      ContentSame(r.columns, r.prevHash, s.columns, s.prevHash);
    }
  }

  lemma {:induction false} DigestsDistinct(hash: HashFunction, table: seq<Row>, i: nat, j: nat)
    requires CollisionFree(hash) && Intact(Recompute(hash), table)
    requires i < j < |table|
    ensures table[i].hash != table[j].hash
  {
    var expected := Recompute(hash);
    RecomputeDiscriminates(hash);
    assert Sound(expected, table, i) && Sound(expected, table, j);
    if table[i].hash == table[j].hash {
      assert expected(table[i]) == expected(table[j]);
      if i > 0 {
        DigestsDistinct(hash, table, i - 1, j - 1);
      }
    }
  }

  // ---------------------------------------------------------------- deletion and reordering

  /** The rows at the given places, in the given order: deletions, swaps and repetitions alike. */
  function Pick(table: seq<Row>, places: seq<nat>): (picked: seq<Row>)
    requires forall k | 0 <= k < |places| :: places[k] < |table|
    ensures |picked| == |places|
  {
    seq(|places|, k requires 0 <= k < |places| => table[places[k]])
  }

  /** A picked row is sound behind a faithful start exactly when it is the next row of the table. */
  lemma PickedSound(hash: HashFunction, table: seq<Row>, places: seq<nat>, k: nat)
    requires CollisionFree(hash) && Intact(Recompute(hash), table)
    requires forall m | 0 <= m < |places| :: places[m] < |table|
    requires k < |places|
    requires k > 0 ==> places[k - 1] == k - 1
    ensures Sound(Recompute(hash), Pick(table, places), k) <==> places[k] == k
  {
    var p := places[k];
    assert Sound(Recompute(hash), table, p);
    if k > 0 && p > 0 && p != k {
      if p < k {
        DigestsDistinct(hash, table, p - 1, k - 1);
      } else {
        DigestsDistinct(hash, table, k - 1, p - 1);
      }
    }
  }

  /**
   Whatever rows survive and in whatever order, the check stops at the first one that is out of place:
   the first survivor after the earliest gap.
   */
  lemma {:induction false} PickBreaks(hash: HashFunction, table: seq<Row>, places: seq<nat>, k: nat)
    requires CollisionFree(hash) && Intact(Recompute(hash), table)
    requires forall m | 0 <= m < |places| :: places[m] < |table|
    requires k <= |places|
    requires forall m | 0 <= m < k :: places[m] == m
    requires k < |places| ==> places[k] != k
    ensures FirstBroken(Recompute(hash), Pick(table, places), k)
  {
    forall m: nat | m < |places| && m <= k ensures Sound(Recompute(hash), Pick(table, places), m) <==> places[m] == m {
      PickedSound(hash, table, places, m);
    }
  }

  /** A selection of rows passes exactly when it is a prefix of the table. */
  lemma PickIntactIff(hash: HashFunction, table: seq<Row>, places: seq<nat>)
    requires CollisionFree(hash) && Intact(Recompute(hash), table)
    requires forall m | 0 <= m < |places| :: places[m] < |table|
    ensures Intact(Recompute(hash), Pick(table, places)) <==> forall m | 0 <= m < |places| :: places[m] == m
  {
    if exists m :: 0 <= m < |places| && places[m] != m {
      var m: nat :| m < |places| && places[m] != m;
      var k := FirstMisplaced(places, m);
      PickBreaks(hash, table, places, k);
      assert !Sound(Recompute(hash), Pick(table, places), k);
    } else {
      PickBreaks(hash, table, places, |places|);
    }
  }

  lemma FirstMisplaced(places: seq<nat>, m: nat) returns (k: nat)
    requires m < |places| && places[m] != m
    ensures k <= m && places[k] != k
    ensures forall j | 0 <= j < k :: places[j] == j
  {
    k := 0;
    while places[k] == k
      decreases m - k
      invariant k <= m
      invariant forall j | 0 <= j < k :: places[j] == j
    {
      k := k + 1;
    }
  }

  // ---------------------------------------------------------------- a rewritten row

  /** Rows away from a rewritten one are as sound as before. */
  lemma SoundElsewhere(expected: Row -> Digest, table: seq<Row>, i: nat, row: Row, k: nat)
    requires Intact(expected, table) && i < |table| && k < |table| && k != i && k != i + 1
    ensures Sound(expected, table[i := row], k)
  {
    assert Sound(expected, table, k);
  }

  lemma SoundBehind(expected: Row -> Digest, table: seq<Row>, i: nat, row: Row)
    requires Intact(expected, table) && i + 1 < |table|
    ensures Sound(expected, table[i := row], i + 1) <==> row.hash == table[i].hash
  {
    assert Sound(expected, table, i + 1);
  }

  /** Replacing one row goes unseen exactly when its digest and link still fit the rows around it. */
  lemma RewriteIntactIff(hash: HashFunction, table: seq<Row>, i: nat, row: Row)
    requires CollisionFree(hash) && Intact(Recompute(hash), table) && i < |table|
    ensures Intact(Recompute(hash), table[i := row]) <==>
      && row.prevHash == table[i].prevHash
      && row.hash == ExpectedHash(hash, row)
      && (i == |table| - 1 || ColumnText(row.columns) == ColumnText(table[i].columns))
  {
    var expected, t := Recompute(hash), table[i := row];
    assert Sound(expected, table, i);
    ContentSame(row.columns, row.prevHash, table[i].columns, table[i].prevHash);
    forall k: nat | k < |table| && k != i && k != i + 1 ensures Sound(expected, t, k) {
      SoundElsewhere(expected, table, i, row, k);
    }
    assert Sound(expected, t, i) <==> row.prevHash == table[i].prevHash && row.hash == ExpectedHash(hash, row);
    if i + 1 < |table| {
      SoundBehind(expected, table, i, row);
    }
    assert Intact(expected, t) <==> Sound(expected, t, i) && (i + 1 < |table| ==> Sound(expected, t, i + 1));
  }

  /** A row of which only the columns, only the link or only the digest changed breaks at that row. */
  lemma OneFieldBreaksThere(hash: HashFunction, table: seq<Row>, i: nat, row: Row)
    requires CollisionFree(hash) && Intact(Recompute(hash), table) && i < |table|
    requires
      || (ColumnText(row.columns) != ColumnText(table[i].columns)
          && row.prevHash == table[i].prevHash && row.hash == table[i].hash)
      || (row.columns == table[i].columns && row.prevHash != table[i].prevHash && row.hash == table[i].hash)
      || (row.columns == table[i].columns && row.prevHash == table[i].prevHash && row.hash != table[i].hash)
    ensures FirstBroken(Recompute(hash), table[i := row], i)
  {
    var expected := Recompute(hash);
    RecomputeDiscriminates(hash);
    var t := table[i := row];
    assert Sound(expected, table, i);
    forall k: nat | k < i ensures Sound(expected, t, k) {
      SoundElsewhere(expected, table, i, row, k);
    }
  }

  /** A rewritten row that is seen is seen there or at the row behind it. */
  lemma RewriteBreaksNearby(expected: Row -> Digest, table: seq<Row>, i: nat, row: Row)
    requires Intact(expected, table) && i < |table| && !Intact(expected, table[i := row])
    ensures FirstBroken(expected, table[i := row], i) || FirstBroken(expected, table[i := row], i + 1)
  {
    var t := table[i := row];
    forall k: nat | k < |table| && k != i && k != i + 1 ensures Sound(expected, t, k) {
      SoundElsewhere(expected, table, i, row, k);
    }
  }

  /** A row forged into the chain is seen unless it is the newest one. */
  lemma InsertionIntactIff(hash: HashFunction, table: seq<Row>, i: nat, row: Row)
    requires CollisionFree(hash) && Intact(Recompute(hash), table) && i <= |table|
    ensures Intact(Recompute(hash), table[..i] + [row] + table[i..]) <==>
      i == |table| && row.prevHash == PrevOf(table, i) && row.hash == ExpectedHash(hash, row)
  {
    var expected := Recompute(hash);
    var t := table[..i] + [row] + table[i..];
    forall k: nat | k < i ensures Sound(expected, t, k) {
      assert Sound(expected, table, k);
    }
    assert Sound(expected, t, i) <==> row.prevHash == PrevOf(table, i) && row.hash == expected(row);
    if i < |table| {
      assert t[i + 1] == table[i];
      assert Sound(expected, table, i);
      if Intact(expected, t) {
        assert Sound(expected, t, i) && Sound(expected, t, i + 1);
        InsertedTwice(hash, table, i, row);
      }
    }
  }

  /** No row fits between a row and its predecessor. */
  lemma InsertedTwice(hash: HashFunction, table: seq<Row>, i: nat, row: Row)
    requires CollisionFree(hash) && Intact(Recompute(hash), table) && i < |table|
    requires row.prevHash == PrevOf(table, i) && row.hash == ExpectedHash(hash, row)
    ensures table[i].prevHash != Some(row.hash)
  {
    var expected := Recompute(hash);
    RecomputeDiscriminates(hash);
    assert Sound(expected, table, i);
    if i > 0 && row.hash == table[i - 1].hash {
      assert Sound(expected, table, i - 1);
      assert expected(row) == expected(table[i - 1]);
      if i > 1 {
        DigestsDistinct(hash, table, i - 2, i - 1);
      }
    }
  }

  /** Neither `sequence` nor `created_at` is covered: only the order of the rows is. */
  lemma UnhashedFieldsUnseen(hash: HashFunction, table: seq<Row>, other: seq<Row>, stop: nat)
    requires |table| == |other|
    requires forall i | 0 <= i < |table| ::
      other[i] == table[i].(sequence := other[i].sequence, createdAt := other[i].createdAt)
    ensures FirstBroken(Recompute(hash), table, stop) <==> FirstBroken(Recompute(hash), other, stop)
  {
    forall i: nat | i < |table|
      ensures Sound(Recompute(hash), table, i) <==> Sound(Recompute(hash), other, i)
    {
      assert other[i].columns == table[i].columns && other[i].prevHash == table[i].prevHash;
      assert i > 0 ==> other[i - 1].hash == table[i - 1].hash;
    }
  }

  // ---------------------------------------------------------------- which column changes show

  lemma {:induction false} JoinOneChanged(ts: seq<Text>, k: nat, t: Text)
    requires k < |ts| && t != ts[k]
    ensures JoinWithBar(ts) != JoinWithBar(ts[k := t])
  {
    var us := ts[k := t];
    if |ts| > 1 {
      if k == 0 {
        assert us[1..] == ts[1..];
        var rest := [BAR] + JoinWithBar(ts[1..]);
        assert JoinWithBar(ts) == ts[0] + rest && JoinWithBar(us) == t + rest;
        SuffixCancels(ts[0], t, rest);
      } else {
        assert us[1..] == ts[1..][k - 1 := t];
        JoinOneChanged(ts[1..], k - 1, t);
        var head := ts[0] + [BAR];
        assert JoinWithBar(ts)[|head|..] == JoinWithBar(ts[1..]);
        assert JoinWithBar(us)[|head|..] == JoinWithBar(us[1..]);
      }
    }
  }

  lemma SuffixCancels(a: Text, b: Text, rest: Text)
    ensures a + rest == b + rest <==> a == b
  {
    assert a == (a + rest)[..|a|] && b == (b + rest)[..|b|];
    assert |a + rest| == |a| + |rest| && |b + rest| == |b| + |rest|;
  }

  /** Changing the text of any one column changes what is hashed. */
  lemma OneColumnShows(c: Columns, d: Columns, k: nat)
    requires k < 11
    requires forall m | 0 <= m < 11 && m != k :: ColumnTexts(c)[m] == ColumnTexts(d)[m]
    ensures ColumnText(c) == ColumnText(d) <==> ColumnTexts(c)[k] == ColumnTexts(d)[k]
  {
    if ColumnTexts(c)[k] == ColumnTexts(d)[k] {
      assert ColumnTexts(c) == ColumnTexts(d);
    } else {
      assert ColumnTexts(d) == ColumnTexts(c)[k := ColumnTexts(d)[k]];
      JoinOneChanged(ColumnTexts(c), k, ColumnTexts(d)[k]);
    }
  }

  // ---------------------------------------------------------------- columns that hold the separator

  ghost predicate BarFree(ts: seq<Text>) {
    forall i | 0 <= i < |ts| :: BAR !in ts[i]
  }

  lemma BarInHead(a: Text, p: Text, b: Text, q: Text)
    requires a + [BAR] + p == b + [BAR] + q
    requires |a| < |b|
    ensures BAR in b
  {
    assert (a + [BAR] + p)[|a|] == BAR;
    assert (b + [BAR] + q)[|a|] == b[|a|];
  }

  lemma FirstBarSplits(a: Text, p: Text, b: Text, q: Text)
    requires BAR !in a && BAR !in b && a + [BAR] + p == b + [BAR] + q
    ensures a == b && p == q
  {
    if |a| < |b| {
      BarInHead(a, p, b, q);
    } else if |b| < |a| {
      BarInHead(b, q, a, p);
    }
    var s := a + [BAR] + p;
    assert a == s[..|a|] && p == s[|a| + 1..];
    assert b == s[..|b|] && q == s[|b| + 1..];
  }

  /** Texts without the separator can be read back from what is joined. */
  lemma {:induction false} JoinInjective(ts: seq<Text>, us: seq<Text>)
    requires |ts| == |us| > 0 && BarFree(ts) && BarFree(us)
    ensures JoinWithBar(ts) == JoinWithBar(us) <==> ts == us
  {
    if |ts| > 1 {
      JoinInjective(ts[1..], us[1..]);
      if JoinWithBar(ts) == JoinWithBar(us) {
        FirstBarSplits(ts[0], JoinWithBar(ts[1..]), us[0], JoinWithBar(us[1..]));
        assert ts == [ts[0]] + ts[1..] && us == [us[0]] + us[1..];
      }
    } else {
      assert ts == [ts[0]] && us == [us[0]];
    }
  }

  /** While no column holds the separator, the hashed text determines every column, NULL read as empty. */
  lemma ColumnTextSameIff(c: Columns, d: Columns)
    requires BarFree(ColumnTexts(c)) && BarFree(ColumnTexts(d))
    ensures ColumnText(c) == ColumnText(d) <==> ColumnTexts(c) == ColumnTexts(d)
  {
    JoinInjective(ColumnTexts(c), ColumnTexts(d));
  }

  /** A rewrite without separators goes unseen only where every column of an older row reads as before. */
  lemma BarFreeRewriteIntactIff(hash: HashFunction, table: seq<Row>, i: nat, row: Row)
    requires CollisionFree(hash) && Intact(Recompute(hash), table) && i < |table|
    requires BarFree(ColumnTexts(row.columns)) && BarFree(ColumnTexts(table[i].columns))
    ensures Intact(Recompute(hash), table[i := row]) <==>
      && row.prevHash == table[i].prevHash
      && row.hash == ExpectedHash(hash, row)
      && (i == |table| - 1 || ColumnTexts(row.columns) == ColumnTexts(table[i].columns))
  {
    RewriteIntactIff(hash, table, i, row);
    ColumnTextSameIff(row.columns, table[i].columns);
  }

  lemma {:induction false} JoinSplits(ts: seq<Text>, us: seq<Text>)
    requires |ts| > 0 && |us| > 0
    ensures JoinWithBar(ts + us) == JoinWithBar(ts) + [BAR] + JoinWithBar(us)
  {
    if |ts| > 1 {
      JoinSplits(ts[1..], us);
      assert (ts + us)[1..] == ts[1..] + us;
    } else {
      assert (ts + us)[1..] == us;
    }
  }

  lemma JoinFirst(first: Text, ts: seq<Text>)
    requires |ts| > 0
    ensures JoinWithBar([first] + ts) == first + [BAR] + JoinWithBar(ts)
  {
    assert ([first] + ts)[1..] == ts;
  }

  /** The last six columns with four of them empty. */
  lemma JoinedAroundNulls(first: Text, last: Text)
    ensures JoinWithBar([first, [], [], [], [], last]) == first + [BAR, BAR, BAR, BAR, BAR] + last
  {
    var t1: seq<Text> := [last];
    var t2: seq<Text> := [[]] + t1;
    var t3: seq<Text> := [[]] + t2;
    var t4: seq<Text> := [[]] + t3;
    var t5: seq<Text> := [[]] + t4;
    JoinFirst([], t1);
    JoinFirst([], t2);
    JoinFirst([], t3);
    JoinFirst([], t4);
    JoinFirst(first, t5);
    assert [first] + t5 == [first, [], [], [], [], last];
    assert JoinWithBar(t5) == [BAR, BAR, BAR, BAR] + last;
  }

  /** Nothing is known of what the action was about, and the request id starts with the separator. */
  predicate Movable(c: Columns) {
    && c.entityId.None? && c.before.None? && c.after.None? && c.sourceIp.None?
    && c.requestId.Some? && c.requestId.value != [] && c.requestId.value[0] == BAR
  }

  /** The separator moved from the front of the request id to the end of the entity type. */
  function Moved(c: Columns): Columns
    requires Movable(c)
  {
    c.(entityType := c.entityType + [BAR], requestId := Some(c.requestId.value[1..]))
  }

  /** Columns that hold the separator can hash alike and differ. */
  lemma SeparatorCollision(c: Columns)
    requires Movable(c)
    ensures ColumnText(Moved(c)) == ColumnText(c)
    ensures Moved(c).entityType != c.entityType && Moved(c).requestId != c.requestId
  {
    var d := Moved(c);
    var head := ColumnTexts(c)[..5];
    var r := c.requestId.value;
    JoinedAroundNulls(c.entityType, r);
    JoinedAroundNulls(d.entityType, r[1..]);
    JoinSplits(head, [c.entityType, [], [], [], [], r]);
    JoinSplits(head, [d.entityType, [], [], [], [], r[1..]]);
    assert ColumnTexts(c) == head + [c.entityType, [], [], [], [], r];
    assert ColumnTexts(d) == head + [d.entityType, [], [], [], [], r[1..]];
    assert r == [BAR] + r[1..];
    assert |d.entityType| > |c.entityType|;
  }

  /** Anywhere in a chain, a row so rewritten goes unseen. */
  lemma SeparatorRewriteUnseen(hash: HashFunction, table: seq<Row>, i: nat)
    requires Intact(Recompute(hash), table) && i < |table| && Movable(table[i].columns)
    ensures
      var forged := table[i := table[i].(columns := Moved(table[i].columns))];
      forged != table && Intact(Recompute(hash), forged)
  {
    var forged := table[i := table[i].(columns := Moved(table[i].columns))];
    SeparatorCollision(table[i].columns);
    assert forged[i].columns != table[i].columns;
    forall k: nat | k < |table| ensures Sound(Recompute(hash), forged, k) {
      assert Sound(Recompute(hash), table, k);
      assert k > 0 ==> forged[k - 1].hash == table[k - 1].hash;
    }
  }
}

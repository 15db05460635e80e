/**
 The check of the audit event chain: the walk over one page of rows that looks for the first broken
 row, and the loop that walks the whole table one page at a time. `expected` is the digest that
 Postgres recomputes from a row's current columns.
 */
module AuditChain {
  import opened Wrappers
  import opened AuditContent

  // ---------------------------------------------------------------- the page walk

  /** A fetched row: its own digests, and the digest recomputed from its current columns. */
  datatype ChainRow = ChainRow(
    sequence: int,
    prevHash: Option<Digest>,
    hash: Digest,
    expectedHash: Digest
  )

  datatype WalkState = WalkState(lastSequence: Option<int>, lastHash: Option<Digest>)

  const INITIAL_STATE := WalkState(None, None)

  function StateAfter(state: WalkState, rows: seq<ChainRow>, n: nat): WalkState
    requires n <= |rows|
  {
    if n == 0 then state else WalkState(Some(rows[n - 1].sequence), Some(rows[n - 1].hash))
  }

  /** A row follows on when it names its predecessor's digest and hashes to its own. */
  predicate RowOk(previous: Option<Digest>, row: ChainRow) {
    row.prevHash == previous && row.expectedHash == row.hash
  }

  predicate Follows(state: WalkState, rows: seq<ChainRow>, i: nat)
    requires i < |rows|
  {
    RowOk(StateAfter(state, rows, i).lastHash, rows[i])
  }

  predicate CleanUpTo(state: WalkState, rows: seq<ChainRow>, n: nat)
    requires n <= |rows|
  {
    forall i | 0 <= i < n :: Follows(state, rows, i)
  }

  /** The least row that does not follow on; the number of rows when every one does. */
  ghost predicate StopsAt(state: WalkState, rows: seq<ChainRow>, i: nat) {
    i <= |rows| && CleanUpTo(state, rows, i) && (i < |rows| ==> !Follows(state, rows, i))
  }

  function SequenceAt(rows: seq<ChainRow>, i: nat): Option<int> {
    if i < |rows| then Some(rows[i].sequence) else None
  }

  lemma CleanExtends(state: WalkState, rows: seq<ChainRow>, i: nat)
    requires i < |rows| && CleanUpTo(state, rows, i)
    ensures CleanUpTo(state, rows, i + 1) <==> Follows(state, rows, i)
  {}

  function StopFrom(state: WalkState, rows: seq<ChainRow>, i: nat): (stop: nat)
    requires i <= |rows| && CleanUpTo(state, rows, i)
    ensures StopsAt(state, rows, stop)
    decreases |rows| - i
  {
    if i < |rows| && Follows(state, rows, i) then
      CleanExtends(state, rows, i);
      StopFrom(state, rows, i + 1)
    else i
  }

  /** Where a walk of the rows stops: at the least row that does not follow on, or behind the last. */
  function Stop(state: WalkState, rows: seq<ChainRow>): (stop: nat)
    ensures StopsAt(state, rows, stop)
  {
    StopFrom(state, rows, 0)
  }

  lemma StopUnique(state: WalkState, rows: seq<ChainRow>, i: nat)
    requires StopsAt(state, rows, i)
    ensures i == Stop(state, rows)
  {}

  method WalkChainPage(rows: seq<ChainRow>, state: WalkState) returns (after: WalkState, broken: Option<int>)
    ensures after == StateAfter(state, rows, Stop(state, rows))
    ensures broken == SequenceAt(rows, Stop(state, rows))
  {
    var lastSequence, lastHash := state.lastSequence, state.lastHash;
    for i := 0 to |rows|
      invariant WalkState(lastSequence, lastHash) == StateAfter(state, rows, i)
      invariant CleanUpTo(state, rows, i)
    {
      var row := rows[i];
      var linkOk := if lastHash.None? then row.prevHash.None?
                    else row.prevHash.Some? && row.prevHash.value == lastHash.value;
      if !linkOk {
        StopUnique(state, rows, i);
        return WalkState(lastSequence, lastHash), Some(row.sequence);
      }
      if row.expectedHash != row.hash {
        StopUnique(state, rows, i);
        return WalkState(lastSequence, lastHash), Some(row.sequence);
      }
      CleanExtends(state, rows, i);
      lastSequence, lastHash := Some(row.sequence), Some(row.hash);
    }
    StopUnique(state, rows, |rows|);
    return WalkState(lastSequence, lastHash), None;
  }

  // ---------------------------------------------------------------- the paged scan

  function Fetched(expected: Row -> Digest, row: Row): ChainRow {
    ChainRow(row.sequence, row.prevHash, row.hash, expected(row))
  }

  function Scan(expected: Row -> Digest, table: seq<Row>): (rows: seq<ChainRow>)
    ensures |rows| == |table|
  {
    seq(|table|, i requires 0 <= i < |table| => Fetched(expected, table[i]))
  }

  /** `WHERE sequence > after`, in the table's order. */
  function RowsAfter(table: seq<Row>, after: int): seq<Row> {
    if table == [] then []
    else if table[0].sequence > after then [table[0]] + RowsAfter(table[1..], after)
    else RowsAfter(table[1..], after)
  }

  function Take<T>(xs: seq<T>, limit: nat): seq<T> {
    if |xs| <= limit then xs else xs[..limit]
  }

  function FetchPage(expected: Row -> Digest, table: seq<Row>, after: int, limit: nat): seq<ChainRow> {
    Scan(expected, Take(RowsAfter(table, after), limit))
  }

  /** The table in `ORDER BY sequence`: the column is unique and drawn from a counter that starts at 1. */
  predicate Sequenced(table: seq<Row>) {
    && (forall i | 0 <= i < |table| :: table[i].sequence >= 1)
    && forall i, j | 0 <= i < j < |table| :: table[i].sequence < table[j].sequence
  }

  lemma {:induction false} RowsAfterAll(table: seq<Row>, after: int)
    requires forall i | 0 <= i < |table| :: table[i].sequence > after
    ensures RowsAfter(table, after) == table
  {
    if table != [] {
      RowsAfterAll(table[1..], after);
    }
  }

  lemma {:induction false} RowsAfterNone(head: seq<Row>, rest: seq<Row>, after: int)
    requires forall i | 0 <= i < |head| :: head[i].sequence <= after
    ensures RowsAfter(head + rest, after) == RowsAfter(rest, after)
  {
    if head == [] {
      assert head + rest == rest;
    } else {
      assert (head + rest)[1..] == head[1..] + rest;
      RowsAfterNone(head[1..], rest, after);
    }
  }

  ghost predicate Earlier(rows: seq<Row>, after: int) {
    forall i | 0 <= i < |rows| :: rows[i].sequence <= after
  }

  ghost predicate Later(rows: seq<Row>, after: int) {
    forall i | 0 <= i < |rows| :: rows[i].sequence > after
  }

  lemma AfterSplits(table: seq<Row>, n: nat, after: int)
    requires Sequenced(table) && n <= |table|
    requires after == if n == 0 then -1 else table[n - 1].sequence
    ensures Earlier(table[..n], after) && Later(table[n..], after)
  {
    forall i | 0 <= i < n ensures table[i].sequence <= after {
      assert i < n - 1 ==> table[i].sequence < table[n - 1].sequence;
    }
    forall i | n <= i < |table| ensures table[i].sequence > after {
      assert n > 0 ==> table[n - 1].sequence < table[i].sequence;
    }
  }

  lemma RowsAfterSplit(head: seq<Row>, rest: seq<Row>, after: int)
    requires Earlier(head, after) && Later(rest, after)
    ensures RowsAfter(head + rest, after) == rest
  {
    RowsAfterNone(head, rest, after);
    RowsAfterAll(rest, after);
  }

  /** Keyset paging resumes exactly where the last page stopped. */
  lemma RowsAfterResumes(table: seq<Row>, n: nat)
    requires Sequenced(table) && n <= |table|
    ensures RowsAfter(table, if n == 0 then -1 else table[n - 1].sequence) == table[n..]
  {
    var after := if n == 0 then -1 else table[n - 1].sequence;
    AfterSplits(table, n, after);
    RowsAfterSplit(table[..n], table[n..], after);
    assert table == table[..n] + table[n..];
  }

  /** Walking a page from the carried state is walking that stretch of the whole scan. */
  lemma PageState(rows: seq<ChainRow>, n: nat, page: seq<ChainRow>, k: nat)
    requires n + |page| <= |rows| && page == rows[n..n + |page|] && k <= |page|
    ensures StateAfter(StateAfter(INITIAL_STATE, rows, n), page, k) == StateAfter(INITIAL_STATE, rows, n + k)
  {}

  lemma PageClean(rows: seq<ChainRow>, n: nat, page: seq<ChainRow>, k: nat)
    requires n + |page| <= |rows| && page == rows[n..n + |page|] && k <= |page|
    requires CleanUpTo(INITIAL_STATE, rows, n)
    requires CleanUpTo(StateAfter(INITIAL_STATE, rows, n), page, k)
    ensures CleanUpTo(INITIAL_STATE, rows, n + k)
  {
    var carried := StateAfter(INITIAL_STATE, rows, n);
    forall i | n <= i < n + k ensures Follows(INITIAL_STATE, rows, i) {
      PageState(rows, n, page, i - n);
      assert Follows(carried, page, i - n);
    }
  }

  lemma PageStops(rows: seq<ChainRow>, n: nat, page: seq<ChainRow>, k: nat)
    requires n + |page| <= |rows| && page == rows[n..n + |page|] && 0 < |page|
    requires CleanUpTo(INITIAL_STATE, rows, n)
    requires StopsAt(StateAfter(INITIAL_STATE, rows, n), page, k)
    ensures k == |page| ==> CleanUpTo(INITIAL_STATE, rows, n + k)
    ensures k < |page| ==> StopsAt(INITIAL_STATE, rows, n + k)
    ensures k < |page| ==> SequenceAt(page, k) == SequenceAt(rows, n + k)
  {
    PageClean(rows, n, page, k);
    PageState(rows, n, page, k);
  }

  datatype Verification = Verification(intact: bool, eventCount: nat, firstBreakSequence: Option<int>)

  /** The rows up to the end of the page that holds row `stop`. */
  ghost predicate IsPageEnd(total: nat, pageSize: nat, stop: nat, count: nat) {
    exists pages: nat :: IsEndOfPage(total, pageSize, pages, stop, count)
  }

  ghost predicate IsEndOfPage(total: nat, pageSize: nat, pages: nat, stop: nat, count: nat) {
    && pages * pageSize <= stop < count
    && count == if (pages + 1) * pageSize <= total then (pages + 1) * pageSize else total
  }

  /** What one unpaged walk of the whole table reports when it stops at row `stop`. */
  ghost predicate Reports(table: seq<Row>, pageSize: nat, stop: nat, v: Verification) {
    && stop <= |table|
    && (v.intact <==> stop == |table|)
    && v.firstBreakSequence == (if stop < |table| then Some(table[stop].sequence) else None)
    && (v.intact ==> v.eventCount == |table|)
    && (!v.intact ==> IsPageEnd(|table|, pageSize, stop, v.eventCount))
  }

  lemma ScanSlice(expected: Row -> Digest, table: seq<Row>, n: nat, m: nat)
    requires n <= m <= |table|
    ensures Scan(expected, table[n..m]) == Scan(expected, table)[n..m]
  {}

  /** `fetchPage` behind the first `n` rows: the next stretch of the scan, short only at its end. */
  method ReadPage(expected: Row -> Digest, table: seq<Row>, afterSequence: int, limit: nat, ghost n: nat)
    returns (page: seq<ChainRow>)
    requires Sequenced(table) && n <= |table|
    requires afterSequence == if n == 0 then -1 else table[n - 1].sequence
    ensures n + |page| <= |table|
    ensures page == Scan(expected, table)[n..n + |page|]
    ensures |page| <= limit
    ensures |page| < limit ==> n + |page| == |table|
  {
    page := FetchPage(expected, table, afterSequence, limit);
    RowsAfterResumes(table, n);
    ghost var m := if |table| - n <= limit then |table| else n + limit;
    assert Take(table[n..], limit) == table[n..m];
    ScanSlice(expected, table, n, m);
  }

  /** Where the paging loop stands after `n` clean rows. */
  ghost predicate Standing(expected: Row -> Digest, table: seq<Row>, n: nat, state: WalkState, afterSequence: int) {
    && n <= |table|
    && afterSequence == (if n == 0 then -1 else table[n - 1].sequence)
    && state == StateAfter(INITIAL_STATE, Scan(expected, table), n)
    && CleanUpTo(INITIAL_STATE, Scan(expected, table), n)
  }

  lemma StandingNext(expected: Row -> Digest, table: seq<Row>, n: nat, state: WalkState, afterSequence: int,
    page: seq<ChainRow>, k: nat)
    requires Standing(expected, table, n, state, afterSequence)
    requires n + |page| <= |table| && page == Scan(expected, table)[n..n + |page|] && 0 < |page|
    requires StopsAt(state, page, k)
    ensures k == |page| ==>
      Standing(expected, table, n + k, StateAfter(state, page, k), page[|page| - 1].sequence)
    ensures k < |page| ==> Stop(INITIAL_STATE, Scan(expected, table)) == n + k
    ensures k < |page| ==> SequenceAt(page, k) == Some(table[n + k].sequence)
  {
    var all := Scan(expected, table);
    PageStops(all, n, page, k);
    PageState(all, n, page, k);
    assert page[|page| - 1] == all[n + |page| - 1];
    if k < |page| {
      assert page[k] == all[n + k];
      StopUnique(INITIAL_STATE, all, n + k);
    }
  }

  lemma StandingAtEnd(expected: Row -> Digest, table: seq<Row>, state: WalkState, afterSequence: int)
    requires Standing(expected, table, |table|, state, afterSequence)
    ensures Stop(INITIAL_STATE, Scan(expected, table)) == |table|
  {
    StopUnique(INITIAL_STATE, Scan(expected, table), |table|);
  }

  /** The paged scan reports what one walk over the whole table would. */
  method Verify(expected: Row -> Digest, table: seq<Row>, pageSize: nat) returns (v: Verification)
    requires Sequenced(table)
    requires pageSize >= 1
    ensures Reports(table, pageSize, Stop(INITIAL_STATE, Scan(expected, table)), v)
  {
    var state := INITIAL_STATE;
    var eventCount: nat := 0;
    var firstBreakSequence: Option<int> := None;
    var afterSequence := -1;
    ghost var pages: nat := 0;
    while true
      invariant Standing(expected, table, eventCount, state, afterSequence)
      invariant eventCount == pages * pageSize
      invariant firstBreakSequence.None?
      decreases |table| - eventCount
    {
      ghost var n := eventCount;
      var rows := ReadPage(expected, table, afterSequence, pageSize, n);
      if |rows| == 0 {
        StandingAtEnd(expected, table, state, afterSequence);
        return Verification(true, eventCount, None);
      }
      eventCount := eventCount + |rows|;
      NextPage(pages, pageSize);
      ghost var k := Stop(state, rows);
      var outcome, broken := WalkChainPage(rows, state);
      StandingNext(expected, table, n, state, afterSequence, rows, k);
      state, firstBreakSequence := outcome, broken;
      if firstBreakSequence.Some? {
        assert IsEndOfPage(|table|, pageSize, pages, n + k, eventCount);
        return Verification(false, eventCount, firstBreakSequence);
      }
      afterSequence := rows[|rows| - 1].sequence;
      if |rows| < pageSize {
        StandingAtEnd(expected, table, state, afterSequence);
        return Verification(true, eventCount, None);
      }
      pages := pages + 1;
    }
  }

  lemma NextPage(pages: nat, pageSize: nat)
    ensures (pages + 1) * pageSize == pages * pageSize + pageSize
  {
  }
}

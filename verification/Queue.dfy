/**
 The verification queue of a caller: the jobs that await a stage the caller, or someone who delegated to
 the caller, may verify. Each job is listed once, and the list is handed out in pages.
 */
module Queue {
  import opened Wrappers
  import opened Texts
  import opened Pagination
  import opened JobProtocol

  const CANDIDATE_FETCH_CAP: nat := 500

  datatype JobRow = JobRow(
    id: Text, status: JobStatus, submittedBy: Option<Text>, areaId: Text, approvalRouteId: Text,
    currentStageOrdinal: Option<int>)

  datatype StageInfo = StageInfo(roleCodes: seq<Text>, stageLabel: Text, stageCount: nat)

  /** The configured stages by route and ordinal. */
  type StageMap = map<(Text, int), StageInfo>

  /** The caller, or an active delegator; `allowedAreas` is absent for an unrestricted user. */
  datatype Identity = Identity(
    userId: Text, roles: seq<Text>, allowedAreas: Option<set<Text>>, onBehalfOf: Option<Text>)

  datatype Entry = Entry(row: JobRow, onBehalfOf: Option<Text>, ordinal: int, stageLabel: Text, count: nat)

  function RowId(): JobRow -> Text {
    (row: JobRow) => row.id
  }

  function EntryId(): Entry -> Text {
    (e: Entry) => e.row.id
  }

  // ---------------------------------------------------------------- one identity's entries

  predicate IsCandidate(who: Identity, row: JobRow) {
    && row.status == Submitted
    && row.submittedBy.Some? && row.submittedBy.value != who.userId
    && (who.allowedAreas.Some? ==> row.areaId in who.allowedAreas.value)
  }

  function Candidates(jobs: seq<JobRow>, who: Identity): seq<JobRow> {
    if jobs == [] then []
    else
      var row := jobs[|jobs| - 1];
      Candidates(jobs[..|jobs| - 1], who) + if IsCandidate(who, row) then [row] else []
  }

  /** `findCandidateSubmittedJobs`, over a table read in order of id. */
  function FindCandidates(jobs: seq<JobRow>, who: Identity): seq<JobRow> {
    var all := Candidates(jobs, who);
    if |all| <= CANDIDATE_FETCH_CAP then all else all[..CANDIDATE_FETCH_CAP]
  }

  predicate MayVerify(who: Identity, stages: StageMap, row: JobRow) {
    && row.currentStageOrdinal.Some?
    && (row.approvalRouteId, row.currentStageOrdinal.value) in stages
    && exists code | code in stages[(row.approvalRouteId, row.currentStageOrdinal.value)].roleCodes :: code in who.roles
  }

  function EntryFor(who: Identity, stages: StageMap, row: JobRow): Entry
    requires MayVerify(who, stages, row)
  {
    var stage := stages[(row.approvalRouteId, row.currentStageOrdinal.value)];
    Entry(row, who.onBehalfOf, row.currentStageOrdinal.value, stage.stageLabel, stage.stageCount)
  }

  function Entries(who: Identity, stages: StageMap, rows: seq<JobRow>): seq<Entry> {
    if rows == [] then []
    else
      var row := rows[|rows| - 1];
      Entries(who, stages, rows[..|rows| - 1])
      + if MayVerify(who, stages, row) then [EntryFor(who, stages, row)] else []
  }

  lemma {:induction false} NoRolesNoEntries(who: Identity, stages: StageMap, rows: seq<JobRow>)
    requires who.roles == []
    ensures Entries(who, stages, rows) == []
  {
    if rows != [] {
      NoRolesNoEntries(who, stages, rows[..|rows| - 1]);
    }
  }

  method EligibleEntriesFor(jobs: seq<JobRow>, who: Identity, stages: StageMap) returns (entries: seq<Entry>)
    ensures entries == Entries(who, stages, FindCandidates(jobs, who))
  {
    var candidates := FindCandidates(jobs, who);
    if |who.roles| == 0 {
      NoRolesNoEntries(who, stages, candidates);
      return [];
    }
    entries := [];
    for k := 0 to |candidates|
      invariant entries == Entries(who, stages, candidates[..k])
    {
      var row := candidates[k];
      assert candidates[..k + 1][..k] == candidates[..k];
      if row.currentStageOrdinal.None? {
        continue;
      }
      if (row.approvalRouteId, row.currentStageOrdinal.value) !in stages {
        continue;
      }
      var stage := stages[(row.approvalRouteId, row.currentStageOrdinal.value)];
      if !exists code | code in stage.roleCodes :: code in who.roles {
        continue;
      }
      var ordinal := row.currentStageOrdinal.value;
      entries := entries + [Entry(row, who.onBehalfOf, ordinal, stage.stageLabel, stage.stageCount)];
    }
    assert candidates[..|candidates|] == candidates;
  }

  // ---------------------------------------------------------------- merging

  /** The first entry of each id, in order of appearance. */
  function Dedupe(entries: seq<Entry>): seq<Entry> {
    if entries == [] then []
    else
      var e := entries[|entries| - 1];
      var earlier := entries[..|entries| - 1];
      Dedupe(earlier) + if HasId(earlier, e.row.id) then [] else [e]
  }

  predicate HasId(entries: seq<Entry>, id: Text) {
    exists i | 0 <= i < |entries| :: entries[i].row.id == id
  }

  lemma DedupeNext(entries: seq<Entry>, e: Entry)
    ensures Dedupe(entries + [e]) == Dedupe(entries) + if HasId(entries, e.row.id) then [] else [e]
  {
    assert (entries + [e])[..|entries|] == entries;
  }

  method DedupeById(entries: seq<Entry>) returns (result: seq<Entry>)
    ensures result == Dedupe(entries)
  {
    var seen: set<Text> := {};
    result := [];
    for k := 0 to |entries|
      invariant forall id :: id in seen <==> HasId(entries[..k], id)
      invariant result == Dedupe(entries[..k])
    {
      var e := entries[k];
      HasIdNext(entries[..k], e);
      DedupeNext(entries[..k], e);
      assert entries[..k] + [e] == entries[..k + 1];
      if e.row.id in seen {
        continue;
      }
      seen := seen + {e.row.id};
      result := result + [e];
    }
    assert entries[..|entries|] == entries;
  }

  lemma HasIdNext(entries: seq<Entry>, e: Entry)
    ensures forall id :: HasId(entries + [e], id) <==> HasId(entries, id) || id == e.row.id
  {
    var all := entries + [e];
    forall id ensures HasId(all, id) <==> HasId(entries, id) || id == e.row.id {
      if HasId(entries, id) {
        var i :| 0 <= i < |entries| && entries[i].row.id == id;
        assert all[i].row.id == id;
      }
      assert all[|entries|].row.id == e.row.id;
    }
  }

  /** The caller's own entries, then those of each delegator in turn. */
  function AllEntries(jobs: seq<JobRow>, stages: StageMap, identities: seq<Identity>): seq<Entry> {
    if identities == [] then []
    else
      var who := identities[|identities| - 1];
      AllEntries(jobs, stages, identities[..|identities| - 1]) + Entries(who, stages, FindCandidates(jobs, who))
  }

  function Merged(jobs: seq<JobRow>, stages: StageMap, identities: seq<Identity>): seq<Entry> {
    SortBy(Dedupe(AllEntries(jobs, stages, identities)), EntryId())
  }

  /** `GET /queue`: the entries of all identities, each job once, sorted by id and cut at the cursor. */
  method GetQueue(jobs: seq<JobRow>, stages: StageMap, caller: Identity, delegators: seq<Identity>,
    cursor: Option<Text>, limit: nat) returns (page: Page<Entry>)
    requires limit >= 1
    ensures page == PageAt(Merged(jobs, stages, [caller] + delegators), EntryId(), cursor, limit)
  {
    var own := EligibleEntriesFor(jobs, caller, stages);
    var all := WithDelegated(jobs, stages, caller, delegators, own);
    var distinct := DedupeById(all);
    page := SlicePage(SortBy(distinct, EntryId()), cursor, limit);
  }

  lemma AllEntriesNext(jobs: seq<JobRow>, stages: StageMap, identities: seq<Identity>, who: Identity)
    ensures AllEntries(jobs, stages, identities + [who])
            == AllEntries(jobs, stages, identities) + Entries(who, stages, FindCandidates(jobs, who))
  {
    assert (identities + [who])[..|identities|] == identities;
  }

  lemma OneMoreDelegator(jobs: seq<JobRow>, stages: StageMap, caller: Identity, delegators: seq<Identity>, k: nat)
    requires k < |delegators|
    ensures AllEntries(jobs, stages, [caller] + delegators[..k + 1])
            == AllEntries(jobs, stages, [caller] + delegators[..k])
               + Entries(delegators[k], stages, FindCandidates(jobs, delegators[k]))
  {
    assert [caller] + delegators[..k + 1] == [caller] + delegators[..k] + [delegators[k]];
    AllEntriesNext(jobs, stages, [caller] + delegators[..k], delegators[k]);
  }

  lemma OwnOnly(jobs: seq<JobRow>, stages: StageMap, caller: Identity)
    ensures AllEntries(jobs, stages, [caller] + []) == Entries(caller, stages, FindCandidates(jobs, caller))
  {
    AllEntriesNext(jobs, stages, [], caller);
    assert [] + [caller] == [caller] + [];
  }

  method WithDelegated(
    jobs: seq<JobRow>, stages: StageMap, caller: Identity, delegators: seq<Identity>, own: seq<Entry>)
    returns (all: seq<Entry>)
    requires own == Entries(caller, stages, FindCandidates(jobs, caller))
    ensures all == AllEntries(jobs, stages, [caller] + delegators)
  {
    OwnOnly(jobs, stages, caller);
    all := own;
    for k := 0 to |delegators|
      invariant all == AllEntries(jobs, stages, [caller] + delegators[..k])
    {
      var delegated := EligibleEntriesFor(jobs, delegators[k], stages);
      OneMoreDelegator(jobs, stages, caller, delegators, k);
      all := all + delegated;
    }
    assert delegators[..|delegators|] == delegators;
  }

  /** The page behind the cursor. */
  method SlicePage(merged: seq<Entry>, cursor: Option<Text>, limit: nat) returns (page: Page<Entry>)
    requires limit >= 1
    ensures page == PageAt(merged, EntryId(), cursor, limit)
  {
    var after := Behind(merged, EntryId(), DecodeCursor(cursor));
    var hasMore := |after| > limit;
    var data := if hasMore then after[..limit] else after;
    page := Page(data, if hasMore then Some(data[|data| - 1].row.id) else None, hasMore, limit);
  }

  // ---------------------------------------------------------------- each job once

  lemma {:induction false} DedupeMember(entries: seq<Entry>, e: Entry)
    ensures e in Dedupe(entries) <==>
      exists k | 0 <= k < |entries| :: entries[k] == e && !HasId(entries[..k], e.row.id)
  {
    if entries != [] {
      var last := |entries| - 1;
      var init := entries[..last];
      DedupeMember(init, e);
      forall k | 0 <= k < last ensures init[..k] == entries[..k] && init[k] == entries[k] {}
      if e in Dedupe(entries) {
        if e in Dedupe(init) {
          var k :| 0 <= k < |init| && init[k] == e && !HasId(init[..k], e.row.id);
          assert entries[k] == e;
        } else {
          assert entries[last] == e && !HasId(entries[..last], e.row.id);
        }
      }
    }
  }

  lemma {:induction false} DedupeDistinct(entries: seq<Entry>)
    ensures DistinctKeys(Dedupe(entries), EntryId())
    ensures forall id :: HasId(Dedupe(entries), id) <==> HasId(entries, id)
  {
    if entries != [] {
      var last := |entries| - 1;
      var init := entries[..last];
      DedupeDistinct(init);
      HasIdNext(init, entries[last]);
      HasIdNext(Dedupe(init), entries[last]);
      assert entries == init + [entries[last]];
      assert Dedupe(init) + [] == Dedupe(init);
      forall i | 0 <= i < |Dedupe(init)|
        ensures !HasId(init, entries[last].row.id) ==> Dedupe(init)[i].row.id != entries[last].row.id
      {
        assert HasId(Dedupe(init), Dedupe(init)[i].row.id);
      }
    }
  }

  lemma OrderedDistinctAscends(xs: seq<Entry>)
    requires Ordered(xs, EntryId()) && DistinctKeys(xs, EntryId())
    ensures Ascending(xs, EntryId())
  {
    forall i, j | 0 <= i < j < |xs| ensures Less(EntryId()(xs[i]), EntryId()(xs[j])) {
      LessTotal(EntryId()(xs[i]), EntryId()(xs[j]));
    }
  }

  lemma {:induction false} DistinctMeansOnce(xs: seq<Entry>, ys: seq<Entry>)
    requires multiset(xs) == multiset(ys) && DistinctKeys(xs, EntryId())
    ensures DistinctKeys(ys, EntryId())
  {
    SameLength(xs, ys);
    forall i, j | 0 <= i < j < |ys| ensures EntryId()(ys[i]) != EntryId()(ys[j]) {
      if EntryId()(ys[i]) == EntryId()(ys[j]) {
        var a := IndexOf(xs, ys[i], ys);
        var b := IndexOf(xs, ys[j], ys);
        assert a == b;
        DistinctCount(xs, EntryId(), ys[i]);
        TwiceCounts(ys, i, j);
      }
    }
  }

  lemma TwiceCounts(ys: seq<Entry>, i: nat, j: nat)
    requires i < j < |ys| && ys[i] == ys[j]
    ensures multiset(ys)[ys[i]] >= 2
  {
    assert ys == ys[..i] + [ys[i]] + ys[i + 1..j] + [ys[j]] + ys[j + 1..];
  }

  lemma AscendingInOrder(xs: seq<Entry>)
    requires Ascending(xs, EntryId())
    ensures InOrderOf(xs, EntryId())
  {
    forall i, j | 0 <= i < j < |xs| ensures NoLater(EntryId()(xs[i]), EntryId()(xs[j])) {
      LessAsymmetric(EntryId()(xs[i]), EntryId()(xs[j]));
      NoLaterIff(EntryId()(xs[i]), EntryId()(xs[j]));
    }
  }

  /** The merged queue is in strict order of id, so that no job is listed twice. */
  lemma MergedAscends(jobs: seq<JobRow>, stages: StageMap, identities: seq<Identity>)
    ensures Ascending(Merged(jobs, stages, identities), EntryId())
  {
    var distinct := Dedupe(AllEntries(jobs, stages, identities));
    DedupeDistinct(AllEntries(jobs, stages, identities));
    SortOrdered(distinct, EntryId());
    SortPermutes(distinct, EntryId());
    DistinctMeansOnce(distinct, SortBy(distinct, EntryId()));
    OrderedDistinctAscends(SortBy(distinct, EntryId()));
  }

  lemma MergedMember(jobs: seq<JobRow>, stages: StageMap, identities: seq<Identity>, e: Entry)
    ensures e in Merged(jobs, stages, identities) <==> e in Dedupe(AllEntries(jobs, stages, identities))
  {
    var distinct := Dedupe(AllEntries(jobs, stages, identities));
    SortMembers(distinct, EntryId());
    if e in distinct {
      var i :| 0 <= i < |distinct| && distinct[i] == e;
    }
    if e in SortBy(distinct, EntryId()) {
      var i :| 0 <= i < |distinct| && SortBy(distinct, EntryId())[i] == e;
    }
  }

  // ---------------------------------------------------------------- who is served

  /** A job that some identity is served: fetched for it, and awaiting a stage one of its roles satisfies. */
  ghost predicate Served(jobs: seq<JobRow>, stages: StageMap, who: Identity, row: JobRow) {
    row in FindCandidates(jobs, who) && MayVerify(who, stages, row)
  }

  lemma {:induction false} EntriesMember(who: Identity, stages: StageMap, rows: seq<JobRow>, e: Entry)
    ensures e in Entries(who, stages, rows) <==>
      e.row in rows && MayVerify(who, stages, e.row) && e == EntryFor(who, stages, e.row)
  {
    if rows != [] {
      EntriesMember(who, stages, rows[..|rows| - 1], e);
      assert rows == rows[..|rows| - 1] + [rows[|rows| - 1]];
    }
  }

  /** What an identity contributes to the queue. */
  ghost predicate Contributes(jobs: seq<JobRow>, stages: StageMap, who: Identity, e: Entry) {
    Served(jobs, stages, who, e.row) && e == EntryFor(who, stages, e.row)
  }

  ghost predicate SomeoneContributes(jobs: seq<JobRow>, stages: StageMap, identities: seq<Identity>, e: Entry) {
    exists k | 0 <= k < |identities| :: Contributes(jobs, stages, identities[k], e)
  }

  lemma OneMoreContributes(jobs: seq<JobRow>, stages: StageMap, init: seq<Identity>, who: Identity, e: Entry)
    ensures SomeoneContributes(jobs, stages, init + [who], e) <==>
      SomeoneContributes(jobs, stages, init, e) || Contributes(jobs, stages, who, e)
  {
    var all := init + [who];
    if SomeoneContributes(jobs, stages, init, e) {
      var k :| 0 <= k < |init| && Contributes(jobs, stages, init[k], e);
      assert all[k] == init[k];
    }
    assert all[|init|] == who;
  }

  lemma AllEntriesMemberNext(jobs: seq<JobRow>, stages: StageMap, init: seq<Identity>, who: Identity, e: Entry)
    requires e in AllEntries(jobs, stages, init) <==> SomeoneContributes(jobs, stages, init, e)
    ensures e in AllEntries(jobs, stages, init + [who]) <==> SomeoneContributes(jobs, stages, init + [who], e)
  {
    AllEntriesNext(jobs, stages, init, who);
    EntriesMember(who, stages, FindCandidates(jobs, who), e);
    OneMoreContributes(jobs, stages, init, who, e);
  }

  lemma {:induction false} AllEntriesMember(jobs: seq<JobRow>, stages: StageMap, identities: seq<Identity>, e: Entry)
    ensures e in AllEntries(jobs, stages, identities) <==> SomeoneContributes(jobs, stages, identities, e)
  {
    if identities != [] {
      var init, who := identities[..|identities| - 1], identities[|identities| - 1];
      assert identities == init + [who];
      AllEntriesMember(jobs, stages, init, e);
      AllEntriesMemberNext(jobs, stages, init, who, e);
    }
  }

  /** A job is in the queue exactly when the caller or some delegator is served it. */
  lemma QueueHasIff(jobs: seq<JobRow>, stages: StageMap, identities: seq<Identity>, id: Text)
    ensures HasId(Merged(jobs, stages, identities), id) <==>
      exists k, row :: 0 <= k < |identities| && Served(jobs, stages, identities[k], row) && row.id == id
  {
    var all := AllEntries(jobs, stages, identities);
    var merged := Merged(jobs, stages, identities);
    DedupeDistinct(all);
    if HasId(merged, id) {
      var i :| 0 <= i < |merged| && merged[i].row.id == id;
      MergedMember(jobs, stages, identities, merged[i]);
      DedupeMember(all, merged[i]);
      AllEntriesMember(jobs, stages, identities, merged[i]);
    }
    if exists k, row :: 0 <= k < |identities| && Served(jobs, stages, identities[k], row) && row.id == id {
      var k, row :| 0 <= k < |identities| && Served(jobs, stages, identities[k], row) && row.id == id;
      var e := EntryFor(identities[k], stages, row);
      AllEntriesMember(jobs, stages, identities, e);
      var i :| 0 <= i < |all| && all[i] == e;
      assert HasId(all, id);
      var j :| 0 <= j < |Dedupe(all)| && Dedupe(all)[j].row.id == id;
      MergedMember(jobs, stages, identities, Dedupe(all)[j]);
    }
  }

  // ---------------------------------------------------------------- the fetch cap

  lemma {:induction false} CandidateMember(jobs: seq<JobRow>, who: Identity, row: JobRow)
    ensures row in Candidates(jobs, who) <==> row in jobs && IsCandidate(who, row)
  {
    if jobs != [] {
      CandidateMember(jobs[..|jobs| - 1], who, row);
      assert jobs == jobs[..|jobs| - 1] + [jobs[|jobs| - 1]];
    }
  }

  lemma {:induction false} CandidatesAscend(jobs: seq<JobRow>, who: Identity)
    requires Ascending(jobs, RowId())
    ensures Ascending(Candidates(jobs, who), RowId())
  {
    if jobs != [] {
      var last := |jobs| - 1;
      var init := Candidates(jobs[..last], who);
      CandidatesAscend(jobs[..last], who);
      forall i | 0 <= i < |init| ensures Less(RowId()(init[i]), RowId()(jobs[last])) {
        CandidateMember(jobs[..last], who, init[i]);
        var k :| 0 <= k < last && jobs[k] == init[i];
      }
    }
  }

  lemma {:induction false} CandidatesSplit(jobs: seq<JobRow>, who: Identity, n: nat)
    requires n <= |jobs|
    ensures
      var before, all := Candidates(jobs[..n], who), Candidates(jobs, who);
      && |before| <= |all|
      && all[..|before|] == before
      && (n < |jobs| && IsCandidate(who, jobs[n]) ==> |before| < |all| && all[|before|] == jobs[n])
  {
    if n == |jobs| {
      assert jobs[..n] == jobs;
    } else {
      var last := |jobs| - 1;
      CandidatesSplit(jobs[..last], who, n);
      assert jobs[..last][..n] == jobs[..n];
    }
  }

  lemma IdAtOnePlace(rows: seq<JobRow>, i: nat, j: nat)
    requires Ascending(rows, RowId()) && i < |rows| && j < |rows|
    ensures rows[i].id == rows[j].id <==> i == j
  {
    LessIrreflexive(rows[i].id);
    assert i < j ==> Less(RowId()(rows[i]), RowId()(rows[j]));
    assert j < i ==> Less(RowId()(rows[j]), RowId()(rows[i]));
  }

  /** Submitted by somebody else, in an area that the identity may see. */
  ghost predicate AwaitsOther(who: Identity, row: JobRow) {
    && row.status == Submitted && row.submittedBy.Some? && row.submittedBy != Some(who.userId)
    && (who.allowedAreas.Some? ==> row.areaId in who.allowedAreas.value)
  }

  ghost function AwaitingBefore(jobs: seq<JobRow>, who: Identity, n: nat): set<nat>
    requires n <= |jobs|
  {
    set m: nat | m < n && AwaitsOther(who, jobs[m])
  }

  lemma AwaitingNext(jobs: seq<JobRow>, who: Identity, n: nat)
    requires n < |jobs|
    ensures |AwaitingBefore(jobs, who, n + 1)|
            == |AwaitingBefore(jobs, who, n)| + if AwaitsOther(who, jobs[n]) then 1 else 0
  {
    var before := AwaitingBefore(jobs, who, n);
    if AwaitsOther(who, jobs[n]) {
      assert AwaitingBefore(jobs, who, n + 1) == before + {n};
    } else {
      assert AwaitingBefore(jobs, who, n + 1) == before;
    }
  }

  lemma {:induction false} CandidatesCount(jobs: seq<JobRow>, who: Identity, n: nat)
    requires n <= |jobs|
    ensures |Candidates(jobs[..n], who)| == |AwaitingBefore(jobs, who, n)|
  {
    if n == 0 {
      assert AwaitingBefore(jobs, who, n) == {};
    } else {
      CandidatesCount(jobs, who, n - 1);
      AwaitingNext(jobs, who, n - 1);
      assert jobs[..n][..n - 1] == jobs[..n - 1];
    }
  }

  /** A job is fetched exactly when it awaits somebody else, and fewer than 500 with smaller ids do. */
  lemma FetchedIff(jobs: seq<JobRow>, who: Identity, n: nat)
    requires Ascending(jobs, RowId()) && n < |jobs|
    ensures jobs[n] in FindCandidates(jobs, who) <==>
      AwaitsOther(who, jobs[n]) && |AwaitingBefore(jobs, who, n)| < 500
  {
    CandidatesCount(jobs, who, n);
    var all := Candidates(jobs, who);
    var p := |Candidates(jobs[..n], who)|;
    CandidatesSplit(jobs, who, n);
    CandidatesAscend(jobs, who);
    CandidateMember(jobs, who, jobs[n]);
    if IsCandidate(who, jobs[n]) && p < CANDIDATE_FETCH_CAP {
      assert FindCandidates(jobs, who)[p] == jobs[n];
    }
    if jobs[n] in FindCandidates(jobs, who) {
      var i :| 0 <= i < |all| && i < CANDIDATE_FETCH_CAP && all[i] == jobs[n];
      IdAtOnePlace(all, i, p);
    }
  }

  lemma {:induction false} AllAreCandidates(jobs: seq<JobRow>, who: Identity)
    requires forall i | 0 <= i < |jobs| :: IsCandidate(who, jobs[i])
    ensures Candidates(jobs, who) == jobs
  {
    if jobs != [] {
      AllAreCandidates(jobs[..|jobs| - 1], who);
    }
  }

  function Backlog(size: nat): seq<JobRow>
    requires size < 0x1_0000
  {
    seq(size, i requires 0 <= i < size => JobRow([i], Submitted, Some([0]), [], [], Some(1)))
  }

  lemma ServedIsFetched(jobs: seq<JobRow>, stages: StageMap, who: Identity, row: JobRow, n: nat)
    requires Ascending(jobs, RowId()) && n < |jobs| && Served(jobs, stages, who, row)
    ensures row.id == jobs[n].id ==> jobs[n] in FindCandidates(jobs, who)
  {
    ServedInTable(jobs, stages, who, row);
    if row.id == jobs[n].id {
      SameIdSameRow(jobs, row, jobs[n]);
    }
  }

  /** With 501 jobs awaiting one verifier, that verifier's queue misses a job it may verify. */
  lemma CapHidesAJob() returns (jobs: seq<JobRow>, stages: StageMap, who: Identity)
    ensures |jobs| == 501 && Ascending(jobs, RowId())
    ensures IsCandidate(who, jobs[500]) && MayVerify(who, stages, jobs[500])
    ensures !HasId(Merged(jobs, stages, [who]), jobs[500].id)
  {
    jobs := Backlog(501);
    stages := map[([], 1) := StageInfo([[1]], [], 1)];
    who := Identity([1], [[1]], None, None);
    assert [1] in stages[([], 1)].roleCodes && [1] in who.roles;
    AllAreCandidates(jobs[..500], who);
    FetchedIff(jobs, who, 500);
    QueueHasIff(jobs, stages, [who], jobs[500].id);
    forall k, row | 0 <= k < |[who]| && Served(jobs, stages, [who][k], row) ensures row.id != jobs[500].id {
      ServedIsFetched(jobs, stages, who, row, 500);
    }
  }

  lemma ServedInTable(jobs: seq<JobRow>, stages: StageMap, who: Identity, row: JobRow)
    requires Served(jobs, stages, who, row)
    ensures row in jobs
  {
    CandidateMember(jobs, who, row);
  }

  lemma SameIdSameRow(jobs: seq<JobRow>, a: JobRow, b: JobRow)
    requires Ascending(jobs, RowId()) && a in jobs && b in jobs && a.id == b.id
    ensures a == b
  {
    var i :| 0 <= i < |jobs| && jobs[i] == a;
    var j :| 0 <= j < |jobs| && jobs[j] == b;
    IdAtOnePlace(jobs, i, j);
  }

  // ---------------------------------------------------------------- the whole walk

  /** One of the identity's roles is among those of the stage that the job awaits. */
  ghost predicate HasRoleFor(who: Identity, stages: StageMap, row: JobRow) {
    && row.currentStageOrdinal.Some?
    && var stage := (row.approvalRouteId, row.currentStageOrdinal.value);
       stage in stages && exists code :: code in who.roles && code in stages[stage].roleCodes
  }

  lemma RoleIff(who: Identity, stages: StageMap, row: JobRow)
    ensures MayVerify(who, stages, row) <==> HasRoleFor(who, stages, row)
  {
  }

  /** Awaiting somebody else within the cap, at a stage that the identity may verify. */
  ghost predicate EligibleFor(jobs: seq<JobRow>, stages: StageMap, who: Identity, n: nat)
    requires n < |jobs|
  {
    && AwaitsOther(who, jobs[n]) && HasRoleFor(who, stages, jobs[n])
    && |AwaitingBefore(jobs, who, n)| < 500
  }

  lemma InQueueIffEligible(jobs: seq<JobRow>, stages: StageMap, identities: seq<Identity>, n: nat)
    requires Ascending(jobs, RowId()) && n < |jobs|
    ensures HasId(Merged(jobs, stages, identities), jobs[n].id) <==>
      exists k | 0 <= k < |identities| :: EligibleFor(jobs, stages, identities[k], n)
  {
    QueueHasIff(jobs, stages, identities, jobs[n].id);
    if HasId(Merged(jobs, stages, identities), jobs[n].id) {
      var k, row :| 0 <= k < |identities| && Served(jobs, stages, identities[k], row) && row.id == jobs[n].id;
      ServedInTable(jobs, stages, identities[k], row);
      SameIdSameRow(jobs, row, jobs[n]);
      FetchedIff(jobs, identities[k], n);
      RoleIff(identities[k], stages, jobs[n]);
      assert EligibleFor(jobs, stages, identities[k], n);
    }
    if exists k | 0 <= k < |identities| :: EligibleFor(jobs, stages, identities[k], n) {
      var k :| 0 <= k < |identities| && EligibleFor(jobs, stages, identities[k], n);
      FetchedIff(jobs, identities[k], n);
      RoleIff(identities[k], stages, jobs[n]);
      assert Served(jobs, stages, identities[k], jobs[n]);
    }
  }

  lemma MergedKeysNonEmpty(jobs: seq<JobRow>, stages: StageMap, identities: seq<Identity>)
    requires NonEmptyKeys(jobs, RowId())
    ensures NonEmptyKeys(Merged(jobs, stages, identities), EntryId())
  {
    var merged := Merged(jobs, stages, identities);
    forall i | 0 <= i < |merged| ensures EntryId()(merged[i]) != [] {
      MergedMember(jobs, stages, identities, merged[i]);
      DedupeMember(AllEntries(jobs, stages, identities), merged[i]);
      AllEntriesMember(jobs, stages, identities, merged[i]);
      var k :| 0 <= k < |identities| && Contributes(jobs, stages, identities[k], merged[i]);
      ServedInTable(jobs, stages, identities[k], merged[i].row);
      var j :| 0 <= j < |jobs| && jobs[j] == merged[i].row;
      assert RowId()(jobs[j]) != [];
    }
  }

  /**
   Following the cursors over an unchanged queue lists jobs in strict order of id, so none twice, and a
   job exactly when the caller or a delegator is eligible for it within the cap.
   */
  lemma QueueWalk(jobs: seq<JobRow>, stages: StageMap, identities: seq<Identity>, limit: nat)
    requires Ascending(jobs, RowId()) && NonEmptyKeys(jobs, RowId()) && limit >= 1
    ensures Ascending(Merged(jobs, stages, identities), EntryId())
    ensures NonEmptyKeys(Merged(jobs, stages, identities), EntryId())
    ensures
      var listed := Concat(Walk(Merged(jobs, stages, identities), EntryId(), None, limit));
      && Ascending(listed, EntryId()) && InOrderOf(listed, EntryId())
      && forall n: nat | n < |jobs| ::
           HasId(listed, jobs[n].id)
           <==> exists k | 0 <= k < |identities| :: EligibleFor(jobs, stages, identities[k], n)
  {
    var merged := Merged(jobs, stages, identities);
    MergedAscends(jobs, stages, identities);
    MergedKeysNonEmpty(jobs, stages, identities);
    WalkYieldsAll(merged, EntryId(), None, limit);
    AscendingInOrder(merged);
    forall n: nat | n < |jobs|
      ensures HasId(merged, jobs[n].id)
              <==> exists k | 0 <= k < |identities| :: EligibleFor(jobs, stages, identities[k], n)
    {
      InQueueIffEligible(jobs, stages, identities, n);
    }
  }

  // ---------------------------------------------------------------- own entries first

  lemma {:induction false} EntriesDistinct(who: Identity, stages: StageMap, rows: seq<JobRow>)
    requires Ascending(rows, RowId())
    ensures DistinctKeys(Entries(who, stages, rows), EntryId())
  {
    if rows != [] {
      var last := |rows| - 1;
      var init := Entries(who, stages, rows[..last]);
      EntriesDistinct(who, stages, rows[..last]);
      forall i | 0 <= i < |init| ensures init[i].row.id != rows[last].id {
        EntriesMember(who, stages, rows[..last], init[i]);
        var k :| 0 <= k < last && rows[k] == init[i].row;
        assert Less(RowId()(rows[k]), RowId()(rows[last]));
        LessAsymmetric(rows[k].id, rows[last].id);
      }
    }
  }

  lemma StillFirst(own: seq<Entry>, more: seq<Entry>, rest: seq<Entry>)
    requires |own| <= |more| && more[..|own|] == own
    ensures |own| <= |more + rest| && (more + rest)[..|own|] == own
  {
  }

  lemma {:induction false} OwnFirst(jobs: seq<JobRow>, stages: StageMap, caller: Identity, delegators: seq<Identity>)
    ensures
      var own := Entries(caller, stages, FindCandidates(jobs, caller));
      var all := AllEntries(jobs, stages, [caller] + delegators);
      |own| <= |all| && all[..|own|] == own
  {
    var own := Entries(caller, stages, FindCandidates(jobs, caller));
    if delegators == [] {
      OwnOnly(jobs, stages, caller);
      assert delegators == [];
    } else {
      var last := |delegators| - 1;
      var more := AllEntries(jobs, stages, [caller] + delegators[..last]);
      OwnFirst(jobs, stages, caller, delegators[..last]);
      StillFirst(own, more, Entries(delegators[last], stages, FindCandidates(jobs, delegators[last])));
      OneMoreDelegator(jobs, stages, caller, delegators, last);
      assert delegators[..last + 1] == delegators;
    }
  }

  /** The caller's own entry is kept where a delegated one lists the same job. */
  lemma OwnEntryWins(jobs: seq<JobRow>, stages: StageMap, caller: Identity, delegators: seq<Identity>, row: JobRow)
    requires Ascending(jobs, RowId())
    requires Served(jobs, stages, caller, row)
    ensures
      var stage := stages[(row.approvalRouteId, row.currentStageOrdinal.value)];
      Entry(row, caller.onBehalfOf, row.currentStageOrdinal.value, stage.stageLabel, stage.stageCount)
      in Merged(jobs, stages, [caller] + delegators)
  {
    var fetched := FindCandidates(jobs, caller);
    var own := Entries(caller, stages, fetched);
    var all := AllEntries(jobs, stages, [caller] + delegators);
    var e := EntryFor(caller, stages, row);
    CandidatesAscend(jobs, caller);
    EntriesDistinct(caller, stages, fetched);
    EntriesMember(caller, stages, fetched, e);
    OwnFirst(jobs, stages, caller, delegators);
    var k :| 0 <= k < |own| && own[k] == e;
    assert all[k] == own[k];
    forall i | 0 <= i < k ensures all[..k][i].row.id != row.id {
      assert all[..k][i] == own[i];
      assert EntryId()(own[i]) != EntryId()(own[k]);
    }
    DedupeMember(all, e);
    MergedMember(jobs, stages, [caller] + delegators, e);
  }
}

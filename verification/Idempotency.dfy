/**
 Idempotency keys: a replay check before the mutation's transaction and an insert inside it, with any
 number of requests interleaved. The key column is the primary key, so a second insert fails and rolls
 its mutation back.
 */
module Idempotency {
  import opened Texts

  type Response = int

  type Fingerprint = int

  datatype KeyRow = KeyRow(userId: Text, fingerprint: Fingerprint, response: Response)

  datatype Client = Client(key: Text, userId: Text, fingerprint: Fingerprint)

  datatype Replay = Unseen | Cached(response: Response) | Mismatch

  function CheckReplay(table: map<Text, KeyRow>, c: Client): Replay {
    if c.key !in table then Unseen
    else if table[c.key].userId != c.userId || table[c.key].fingerprint != c.fingerprint then Mismatch
    else Cached(table[c.key].response)
  }

  /** The key table behind `IdempotencyService`. */
  class KeyTable {
    var rows: map<Text, KeyRow>

    constructor ()
      ensures rows == map[]
    {
      rows := map[];
    }

    method Check(c: Client) returns (r: Replay)
      ensures r == CheckReplay(rows, c)
      ensures r == Unseen <==> c.key !in rows
      ensures forall x :: r == Cached(x) <==> c.key in rows && rows[c.key] == KeyRow(c.userId, c.fingerprint, x)
    {
      if c.key !in rows {
        return Unseen;
      }
      var existing := rows[c.key];
      if existing.userId != c.userId || existing.fingerprint != c.fingerprint {
        return Mismatch;
      }
      return Cached(existing.response);
    }

    /** Fails, leaving the table alone, when the key is already there. */
    method RecordWithin(c: Client, response: Response) returns (ok: bool)
      modifies this
      ensures ok <==> c.key !in old(rows)
      ensures rows == if ok then old(rows)[c.key := KeyRow(c.userId, c.fingerprint, response)] else old(rows)
    {
      ok := c.key !in rows;
      if ok {
        rows := rows[c.key := KeyRow(c.userId, c.fingerprint, response)];
      }
    }
  }

  // ---------------------------------------------------------------- interleaved requests

  datatype Phase =
    | Arrived
    | Proceeding
    | Succeeded(response: Response)
    | Refused

  datatype InFlight = InFlight(client: Client, phase: Phase)

  /** `applied` lists the requests whose mutation committed, in commit order. */
  datatype System = System(table: map<Text, KeyRow>, requests: seq<InFlight>, applied: seq<nat>)

  datatype Event =
    | Arrive(client: Client)
    | Check(id: nat)
    | Transact(id: nat, mutationOk: bool, response: Response)

  const EMPTY: System := System(map[], [], [])

  function Next(s: System, e: Event): System {
    match e
    case Arrive(c) => s.(requests := s.requests + [InFlight(c, Arrived)])
    case Check(id) =>
      if id >= |s.requests| || s.requests[id].phase != Arrived then s
      else
        var phase := match CheckReplay(s.table, s.requests[id].client)
                     case Unseen => Proceeding
                     case Cached(r) => Succeeded(r)
                     case Mismatch => Refused;
        s.(requests := s.requests[id := s.requests[id].(phase := phase)])
    case Transact(id, mutationOk, response) =>
      if id >= |s.requests| || s.requests[id].phase != Proceeding then s
      else
        var c := s.requests[id].client;
        if !mutationOk || c.key in s.table then s.(requests := s.requests[id := s.requests[id].(phase := Refused)])
        else
          System(s.table[c.key := KeyRow(c.userId, c.fingerprint, response)],
                 s.requests[id := s.requests[id].(phase := Succeeded(response))],
                 s.applied + [id])
  }

  function Run(events: seq<Event>): System {
    if events == [] then EMPTY else Next(Run(events[..|events| - 1]), events[|events| - 1])
  }

  // ---------------------------------------------------------------- what every reachable system satisfies

  function KeyAt(s: System, a: nat): Text
    requires a < |s.applied| && s.applied[a] < |s.requests|
  {
    s.requests[s.applied[a]].client.key
  }

  /** The committed mutations are successes under different keys. */
  ghost predicate AppliedOnce(s: System) {
    && (forall a | 0 <= a < |s.applied| :: s.applied[a] < |s.requests| && s.requests[s.applied[a]].phase.Succeeded?)
    && (forall a, b | 0 <= a < b < |s.applied| :: KeyAt(s, a) != KeyAt(s, b))
  }

  /** Every stored key belongs to a committed mutation. */
  ghost predicate StoredApplied(s: System)
    requires AppliedOnce(s)
  {
    forall k | k in s.table :: exists a | 0 <= a < |s.applied| :: KeyAt(s, a) == k
  }

  /** The row stored for a success is its own user, request and response. */
  ghost predicate Agrees(table: map<Text, KeyRow>, r: InFlight) {
    r.phase.Succeeded? ==>
      r.client.key in table
      && table[r.client.key] == KeyRow(r.client.userId, r.client.fingerprint, r.phase.response)
  }

  ghost predicate Inv(s: System) {
    && AppliedOnce(s)
    && StoredApplied(s)
    && forall i | 0 <= i < |s.requests| :: Agrees(s.table, s.requests[i])
  }

  lemma SameKeys(s: System, t: System)
    requires AppliedOnce(s) && t.applied == s.applied
    requires forall a | 0 <= a < |s.applied| ::
               t.applied[a] < |t.requests| && t.requests[t.applied[a]] == s.requests[s.applied[a]]
    ensures AppliedOnce(t) && forall a | 0 <= a < |s.applied| :: KeyAt(t, a) == KeyAt(s, a)
  {
    assert forall a | 0 <= a < |s.applied| :: KeyAt(t, a) == KeyAt(s, a);
  }

  /** Moving requests along without touching the table. */
  lemma QuietKeeps(s: System, t: System)
    requires Inv(s) && t.table == s.table && t.applied == s.applied && |t.requests| >= |s.requests|
    requires forall i | 0 <= i < |s.requests| ::
               t.requests[i].client == s.requests[i].client
               && (s.requests[i].phase.Succeeded? ==> t.requests[i] == s.requests[i])
    requires forall i | 0 <= i < |t.requests| :: Agrees(t.table, t.requests[i])
    ensures Inv(t)
  {
    forall a | 0 <= a < |s.applied| ensures t.requests[t.applied[a]] == s.requests[s.applied[a]] {
    }
    SameKeys(s, t);
    forall k | k in t.table ensures exists a | 0 <= a < |t.applied| :: KeyAt(t, a) == k {
      var a :| 0 <= a < |s.applied| && KeyAt(s, a) == k;
      assert KeyAt(t, a) == k;
    }
  }

  lemma NextKeeps(s: System, e: Event)
    requires Inv(s)
    ensures Inv(Next(s, e))
  {
    var t := Next(s, e);
    match e
    case Arrive(_) => QuietKeeps(s, t);
    case Check(_) => QuietKeeps(s, t);
    case Transact(id, _, response) =>
      if |t.applied| > |s.applied| {
        TransactKeeps(s, id, response);
      } else {
        QuietKeeps(s, t);
      }
  }

  lemma TransactKeeps(s: System, id: nat, response: Response)
    requires Inv(s) && id < |s.requests| && s.requests[id].phase == Proceeding
    requires s.requests[id].client.key !in s.table
    ensures Inv(Next(s, Transact(id, true, response)))
  {
    var t := Next(s, Transact(id, true, response));
    var n := |s.applied|;
    var key := s.requests[id].client.key;
    forall a | 0 <= a < n
      ensures t.requests[t.applied[a]] == s.requests[s.applied[a]] && KeyAt(s, a) != key {
      assert Agrees(s.table, s.requests[s.applied[a]]);
    }
    assert t.requests[t.applied[n]].client.key == key;
    AppliedAlso(s, t, key);
    forall i | 0 <= i < |t.requests| ensures Agrees(t.table, t.requests[i]) {
      assert Agrees(s.table, s.requests[i]);
    }
  }

  /** One more committed mutation, under a key not stored before. */
  lemma AppliedAlso(s: System, t: System, key: Text)
    requires AppliedOnce(s) && StoredApplied(s)
    requires |t.applied| == |s.applied| + 1
    requires forall a | 0 <= a < |s.applied| ::
               t.applied[a] < |t.requests| && t.requests[t.applied[a]] == s.requests[s.applied[a]] && KeyAt(s, a) != key
    requires t.applied[|s.applied|] < |t.requests|
    requires t.requests[t.applied[|s.applied|]].phase.Succeeded? && KeyAt(t, |s.applied|) == key
    requires forall k | k in t.table :: k in s.table || k == key
    ensures AppliedOnce(t) && StoredApplied(t)
  {
    var n := |s.applied|;
    assert forall a | 0 <= a < n :: KeyAt(t, a) == KeyAt(s, a);
    forall k | k in t.table ensures exists a | 0 <= a < |t.applied| :: KeyAt(t, a) == k {
      if k == key {
        assert KeyAt(t, n) == k;
      } else {
        var a :| 0 <= a < n && KeyAt(s, a) == k;
        assert KeyAt(t, a) == k;
      }
    }
  }

  lemma {:induction false} RunKeeps(events: seq<Event>)
    ensures Inv(Run(events))
  {
    if events != [] {
      RunKeeps(events[..|events| - 1]);
      NextKeeps(Run(events[..|events| - 1]), events[|events| - 1]);
    }
  }

  // ---------------------------------------------------------------- the theorems

  /**
   However requests interleave, each key's mutation commits at most once, and any two successes under
   one key have the same response, user and fingerprint, that of the mutation that committed.
   */
  lemma OneMutationPerKey(events: seq<Event>)
    ensures var s := Run(events);
            && (forall a, b | 0 <= a < b < |s.applied| ::
                  s.applied[a] < |s.requests| && s.applied[b] < |s.requests|
                  && s.requests[s.applied[a]].client.key != s.requests[s.applied[b]].client.key)
            && (forall i, j | 0 <= i < |s.requests| && 0 <= j < |s.requests|
                              && s.requests[i].phase.Succeeded? && s.requests[j].phase.Succeeded?
                              && s.requests[i].client.key == s.requests[j].client.key ::
                  s.requests[i] == s.requests[j])
            && (forall i | 0 <= i < |s.requests| && s.requests[i].phase.Succeeded? ::
                  exists a :: 0 <= a < |s.applied| && s.applied[a] < |s.requests|
                              && s.requests[s.applied[a]] == s.requests[i])
  {
    var s := Run(events);
    RunKeeps(events);
    assert forall a | 0 <= a < |s.applied| :: KeyAt(s, a) == s.requests[s.applied[a]].client.key;
    forall i, j | 0 <= i < |s.requests| && 0 <= j < |s.requests|
                  && s.requests[i].phase.Succeeded? && s.requests[j].phase.Succeeded?
                  && s.requests[i].client.key == s.requests[j].client.key
      ensures s.requests[i] == s.requests[j] {
      assert Agrees(s.table, s.requests[i]) && Agrees(s.table, s.requests[j]);
    }
    forall i | 0 <= i < |s.requests| && s.requests[i].phase.Succeeded?
      ensures exists a :: 0 <= a < |s.applied| && s.applied[a] < |s.requests|
                          && s.requests[s.applied[a]] == s.requests[i] {
      assert Agrees(s.table, s.requests[i]);
      var a :| 0 <= a < |s.applied| && KeyAt(s, a) == s.requests[i].client.key;
      assert Agrees(s.table, s.requests[s.applied[a]]);
      assert s.requests[s.applied[a]] == s.requests[i];
    }
  }

  /** A response, once given for a key, is what every later check of that key by its owner returns. */
  lemma {:induction false} ResponseIsFinal(earlier: seq<Event>, later: seq<Event>, key: Text)
    requires key in Run(earlier).table
    ensures key in Run(earlier + later).table && Run(earlier + later).table[key] == Run(earlier).table[key]
  {
    if later == [] {
      assert earlier + later == earlier;
    } else {
      ResponseIsFinal(earlier, later[..|later| - 1], key);
      assert (earlier + later)[..|earlier + later| - 1] == earlier + later[..|later| - 1];
    }
  }

  // ---------------------------------------------------------------- what a client is told

  /** The request whose mutation committed `a`-th is of that key. */
  ghost predicate CommittedUnder(s: System, a: nat, key: Text) {
    a < |s.applied| && s.applied[a] < |s.requests| && s.requests[s.applied[a]].client.key == key
  }

  ghost predicate SomeCommittedUnder(s: System, key: Text) {
    exists a: nat :: CommittedUnder(s, a, key)
  }

  /** A mutation of the client's own key, user and fingerprint committed, and answered `x`. */
  ghost predicate OwnCommitted(s: System, c: Client, x: Response) {
    exists a: nat :: CommittedUnder(s, a, c.key) && s.requests[s.applied[a]] == InFlight(c, Succeeded(x))
  }

  lemma StoredRow(s: System, key: Text, a: nat)
    requires Inv(s) && CommittedUnder(s, a, key)
    ensures
      var r := s.requests[s.applied[a]];
      && r.phase.Succeeded? && key in s.table
      && s.table[key] == KeyRow(r.client.userId, r.client.fingerprint, r.phase.response)
  {
    assert Agrees(s.table, s.requests[s.applied[a]]);
  }

  lemma StoredIff(s: System, key: Text)
    requires Inv(s)
    ensures key in s.table <==> SomeCommittedUnder(s, key)
  {
    if key in s.table {
      var a :| 0 <= a < |s.applied| && KeyAt(s, a) == key;
      assert CommittedUnder(s, a, key);
    }
    if SomeCommittedUnder(s, key) {
      var a: nat :| CommittedUnder(s, a, key);
      StoredRow(s, key, a);
    }
  }

  lemma CachedIff(s: System, c: Client, x: Response)
    requires Inv(s)
    ensures CheckReplay(s.table, c) == Cached(x) <==> OwnCommitted(s, c, x)
  {
    StoredIff(s, c.key);
    if SomeCommittedUnder(s, c.key) {
      var a: nat :| CommittedUnder(s, a, c.key);
      StoredRow(s, c.key, a);
      if CheckReplay(s.table, c) == Cached(x) {
        assert s.requests[s.applied[a]] == InFlight(c, Succeeded(x));
      }
    }
    if OwnCommitted(s, c, x) {
      var a: nat :| CommittedUnder(s, a, c.key) && s.requests[s.applied[a]] == InFlight(c, Succeeded(x));
      StoredRow(s, c.key, a);
    }
  }

  lemma ArriveAndCheck(events: seq<Event>, c: Client)
    ensures
      var s := Run(events);
      var id := |s.requests|;
      Run(events + [Arrive(c), Check(id)]) == Next(Next(s, Arrive(c)), Check(id))
  {
    var s := Run(events);
    var all := events + [Arrive(c), Check(|s.requests|)];
    assert all[..|all| - 1] == events + [Arrive(c)];
    assert (events + [Arrive(c)])[..|events|] == events;
  }

  /**
   Whatever has happened, a request is answered from an earlier one exactly when that one had its key, user and
   fingerprint and its mutation committed; it goes on to its own mutation exactly when none of its key has committed;
   otherwise it is refused.
   */
  lemma CheckedRequest(events: seq<Event>, c: Client)
    ensures
      var s := Run(events);
      var id := |s.requests|;
      var after := Run(events + [Arrive(c), Check(id)]);
      && after.applied == s.applied && |after.requests| == id + 1 && after.requests[id].client == c
      && (forall x :: after.requests[id].phase == Succeeded(x) <==> OwnCommitted(s, c, x))
      && (after.requests[id].phase == Proceeding <==> !SomeCommittedUnder(s, c.key))
      && (after.requests[id].phase == Refused <==>
            SomeCommittedUnder(s, c.key) && forall x :: !OwnCommitted(s, c, x))
  {
    var s := Run(events);
    RunKeeps(events);
    ArriveAndCheck(events, c);
    StoredIff(s, c.key);
    forall x ensures CheckReplay(s.table, c) == Cached(x) <==> OwnCommitted(s, c, x) {
      CachedIff(s, c, x);
    }
    if CheckReplay(s.table, c).Cached? {
      assert OwnCommitted(s, c, CheckReplay(s.table, c).response);
    }
  }

  /**
   A mutation that goes through commits exactly when none of its key has committed meanwhile; otherwise, as when
   it fails, nothing is stored and the request is refused.
   */
  lemma TransactedRequest(events: seq<Event>, id: nat, mutationOk: bool, x: Response)
    requires id < |Run(events).requests| && Run(events).requests[id].phase == Proceeding
    ensures
      var s := Run(events);
      var c := s.requests[id].client;
      var after := Run(events + [Transact(id, mutationOk, x)]);
      var commits := mutationOk && !SomeCommittedUnder(s, c.key);
      && after.applied == s.applied + (if commits then [id] else [])
      && after.requests == s.requests[id := InFlight(c, if commits then Succeeded(x) else Refused)]
  {
    RunKeeps(events);
    StoredIff(Run(events), Run(events).requests[id].client.key);
    assert (events + [Transact(id, mutationOk, x)])[..|events|] == events;
  }
}

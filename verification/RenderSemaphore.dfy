/**
 The counting semaphore that caps simultaneous renders. Every call of `acquire` is a ticket, numbered in
 order of arrival; a granted ticket carries its own `released` flag.
 */
module RenderSemaphore {
  import opened Wrappers

  type Ticket = nat

  /** `granted` lists the tickets in the order in which they got their permit. */
  datatype State = State(
    max: nat, active: int, waiters: seq<Ticket>, arrivals: nat, granted: seq<Ticket>, released: set<Ticket>)

  function Initial(max: nat): State {
    State(max, 0, [], 0, [], {})
  }

  function Acquired(s: State): State {
    if s.active < s.max then
      s.(active := s.active + 1, arrivals := s.arrivals + 1, granted := s.granted + [s.arrivals])
    else s.(waiters := s.waiters + [s.arrivals], arrivals := s.arrivals + 1)
  }

  /** Calling a ticket's release function, which exists from the moment the ticket is granted. */
  function Released(s: State, t: Ticket): State {
    if t !in s.granted || t in s.released then s
    else
      var freed := s.(active := s.active - 1, released := s.released + {t});
      if freed.waiters == [] then freed
      else freed.(active := freed.active + 1, waiters := freed.waiters[1..],
                  granted := freed.granted + [freed.waiters[0]])
  }

  // ---------------------------------------------------------------- the semaphore

  class Semaphore {
    const maxConcurrent: nat
    var active: int
    var waiters: seq<Ticket>
    var arrivals: nat
    var granted: seq<Ticket>
    var released: set<Ticket>

    function View(): State
      reads this
    {
      State(maxConcurrent, active, waiters, arrivals, granted, released)
    }

    constructor (maxConcurrent: nat)
      requires maxConcurrent >= 1
      ensures View() == Initial(maxConcurrent)
    {
      this.maxConcurrent := maxConcurrent;
      active, waiters, arrivals, granted, released := 0, [], 0, [], {};
    }

    /** The constructor refuses a cap below one. */
    static method Create(maxConcurrent: int) returns (s: Option<Semaphore>)
      ensures s.Some? <==> maxConcurrent >= 1
      ensures s.Some? ==> fresh(s.value) && s.value.View() == Initial(maxConcurrent)
    {
      if maxConcurrent < 1 {
        return None;
      }
      var semaphore := new Semaphore(maxConcurrent);
      s := Some(semaphore);
    }

    method Acquire() returns (ticket: Ticket)
      modifies this
      ensures ticket == old(arrivals)
      ensures View() == Acquired(old(View()))
    {
      ticket := arrivals;
      arrivals := arrivals + 1;
      if active < maxConcurrent {
        Grant(ticket);
        return;
      }
      waiters := waiters + [ticket];
    }

    /** What both the immediate grant and a waiter's callback do. */
    method Grant(ticket: Ticket)
      modifies this`active, this`granted
      ensures active == old(active) + 1 && granted == old(granted) + [ticket]
    {
      active := active + 1;
      granted := granted + [ticket];
    }

    method Release(ticket: Ticket)
      requires ticket in granted
      modifies this
      ensures View() == Released(old(View()), ticket)
    {
      if ticket in released {
        return;
      }
      released := released + {ticket};
      active := active - 1;
      if waiters != [] {
        var next := waiters[0];
        waiters := waiters[1..];
        Grant(next);
      }
    }
  }

  // ---------------------------------------------------------------- every run

  datatype Event = Acquire | Release(ticket: Ticket)

  function Next(s: State, e: Event): State {
    match e
    case Acquire => Acquired(s)
    case Release(t) => Released(s, t)
  }

  function Run(max: nat, events: seq<Event>): State {
    if events == [] then Initial(max) else Next(Run(max, events[..|events| - 1]), events[|events| - 1])
  }

  /** Tickets 0, 1, 2 and so on: everyone who arrived, in order of arrival. */
  predicate InArrivalOrder(tickets: seq<Ticket>) {
    forall i | 0 <= i < |tickets| :: tickets[i] == i
  }

  ghost predicate Inv(s: State) {
    && |s.granted| + |s.waiters| == s.arrivals
    && InArrivalOrder(s.granted + s.waiters)
    && (forall t | t in s.released :: t < |s.granted|)
    && s.active == |s.granted| - |s.released|
    && 0 <= s.active <= s.max
    && (s.waiters != [] ==> s.active == s.max)
  }

  lemma {:induction false} BelowBound(tickets: set<Ticket>, bound: nat)
    requires forall t | t in tickets :: t < bound
    ensures |tickets| <= bound
  {
    if bound == 0 {
      assert tickets == {};
    } else {
      BelowBound(tickets - {bound - 1}, bound - 1);
    }
  }

  lemma AcquireKeeps(s: State)
    requires Inv(s)
    ensures Inv(Acquired(s))
  {
    if s.active < s.max {
      assert s.waiters == [];
      assert s.granted + [] == s.granted;
      assert s.granted + [s.arrivals] + [] == s.granted + [s.arrivals];
    } else {
      assert s.granted + (s.waiters + [s.arrivals]) == (s.granted + s.waiters) + [s.arrivals];
    }
  }

  lemma GrantedIsBelow(s: State, t: Ticket)
    requires Inv(s)
    ensures t in s.granted <==> t < |s.granted|
  {
    forall i | 0 <= i < |s.granted| ensures s.granted[i] == i {
      assert (s.granted + s.waiters)[i] == i;
    }
    if t < |s.granted| {
      assert s.granted[t] == t;
    }
  }

  lemma ReleaseKeeps(s: State, t: Ticket)
    requires Inv(s)
    ensures Inv(Released(s, t))
  {
    GrantedIsBelow(s, t);
    BelowBound(s.released + {t}, if t < |s.granted| then |s.granted| else t + 1 + |s.granted|);
    if s.waiters != [] {
      assert (s.granted + [s.waiters[0]]) + s.waiters[1..] == s.granted + s.waiters;
    }
  }

  lemma {:induction false} RunKeeps(max: nat, events: seq<Event>)
    ensures Inv(Run(max, events)) && Run(max, events).max == max
  {
    if events != [] {
      var before := Run(max, events[..|events| - 1]);
      RunKeeps(max, events[..|events| - 1]);
      AcquireKeeps(before);
      match events[|events| - 1]
      case Acquire =>
      case Release(t) => ReleaseKeeps(before, t);
    }
  }

  /** A ticket has its permit exactly when it is among the first `max`, plus one for each release so far. */
  lemma GrantedIff(max: nat, events: seq<Event>, t: Ticket)
    ensures
      var s := Run(max, events);
      t in s.granted <==> t < s.arrivals && t < max + |s.released|
  {
    var s := Run(max, events);
    RunKeeps(max, events);
    GrantedIsBelow(s, t);
  }

  /** The permits in use never exceed the cap and are those granted and not released. */
  lemma ActiveIsUnreleased(max: nat, events: seq<Event>)
    ensures
      var s := Run(max, events);
      && 0 <= s.active <= max
      && s.active == |(set t | t in s.granted) - s.released|
  {
    var s := Run(max, events);
    RunKeeps(max, events);
    var all := set t | t in s.granted;
    forall t: Ticket ensures t in s.granted <==> t < |s.granted| {
      GrantedIsBelow(s, t);
    }
    InitialSegment(all, |s.granted|);
    assert s.released <= all;
    assert all == (all - s.released) + s.released;
  }

  lemma {:induction false} InitialSegment(all: set<Ticket>, n: nat)
    requires forall t: Ticket :: t in all <==> t < n
    ensures |all| == n
  {
    if n == 0 {
      assert all == {};
    } else {
      InitialSegment(all - {n - 1}, n - 1);
    }
  }

  /** A first release with someone waiting hands the permit to the longest waiter and to no one else. */
  lemma FirstReleaseGrantsHead(max: nat, events: seq<Event>, t: Ticket)
    requires var s := Run(max, events); t in s.granted && t !in s.released
    ensures
      var s := Run(max, events);
      var after := Run(max, events + [Release(t)]);
      && after.granted == s.granted + s.waiters[..if s.waiters == [] then 0 else 1]
      && (s.waiters != [] ==> s.waiters[0] == |s.granted| && after.active == s.active == max)
      && (s.waiters == [] ==> after.active == s.active - 1)
  {
    var s := Run(max, events);
    RunKeeps(max, events);
    assert (events + [Release(t)])[..|events|] == events;
    if s.waiters != [] {
      assert (s.granted + s.waiters)[|s.granted|] == |s.granted|;
      assert s.waiters[..1] == [s.waiters[0]];
    }
  }

  /** Releasing once more, at any later time, changes nothing. */
  lemma {:induction false} ReleaseOnce(max: nat, events: seq<Event>, later: seq<Event>, t: Ticket)
    requires t in Run(max, events).granted
    ensures Run(max, events + [Release(t)] + later + [Release(t)]) == Run(max, events + [Release(t)] + later)
  {
    var all := events + [Release(t)] + later;
    StaysReleased(max, events + [Release(t)], later, t) by {
      assert (events + [Release(t)])[..|events|] == events;
    }
    assert (all + [Release(t)])[..|all|] == all;
  }

  lemma {:induction false} StaysReleased(max: nat, events: seq<Event>, later: seq<Event>, t: Ticket)
    requires t in Run(max, events).released
    ensures t in Run(max, events + later).released
  {
    if later == [] {
      assert events + later == events;
    } else {
      var n := |later| - 1;
      StaysReleased(max, events, later[..n], t);
      assert (events + later)[..|events + later| - 1] == events + later[..n];
    }
  }

  // ---------------------------------------------------------------- arrivals and releases

  function Arrivals(events: seq<Event>): nat {
    if events == [] then 0
    else Arrivals(events[..|events| - 1]) + if events[|events| - 1].Acquire? then 1 else 0
  }

  /** Call `i` releases the ticket, which has its permit by then. */
  ghost predicate ReleasesAt(max: nat, events: seq<Event>, i: nat, t: Ticket) {
    i < |events| && events[i] == Release(t) && t in Run(max, events[..i]).granted
  }

  ghost predicate WasReleased(max: nat, events: seq<Event>, t: Ticket) {
    exists i: nat :: ReleasesAt(max, events, i, t)
  }

  lemma ReleasedNext(max: nat, events: seq<Event>, e: Event, t: Ticket)
    ensures WasReleased(max, events + [e], t) <==>
      WasReleased(max, events, t) || (e == Release(t) && t in Run(max, events).granted)
  {
    var all := events + [e];
    assert all[..|events|] == events;
    forall i: nat | i < |events| ensures ReleasesAt(max, all, i, t) <==> ReleasesAt(max, events, i, t) {
      assert all[..i] == events[..i];
    }
    if WasReleased(max, all, t) {
      var i: nat :| ReleasesAt(max, all, i, t);
      assert i < |events| ==> ReleasesAt(max, events, i, t);
    }
    if WasReleased(max, events, t) {
      var i: nat :| ReleasesAt(max, events, i, t);
      assert ReleasesAt(max, all, i, t);
    }
    if e == Release(t) && t in Run(max, events).granted {
      assert ReleasesAt(max, all, |events|, t);
    }
  }

  /** On every run the arrivals are the calls of `acquire`, and a ticket is released by a call that found it granted. */
  lemma {:induction false} ReleasedIff(max: nat, events: seq<Event>)
    ensures Run(max, events).arrivals == Arrivals(events)
    ensures forall t :: t in Run(max, events).released <==> WasReleased(max, events, t)
  {
    if events != [] {
      var init, e := events[..|events| - 1], events[|events| - 1];
      assert events == init + [e];
      ReleasedIff(max, init);
      forall t ensures t in Run(max, events).released <==> WasReleased(max, events, t) {
        ReleasedNext(max, init, e, t);
      }
    }
  }
}

/**
 The web client's reload gate: work that a reload must not interrupt, the deferral of an update until
 that work is done, and the breaker against reload storms, whose log outlives the page.
 */
module UpdateGate {

  const RELOAD_STORM_WINDOW_MS := 120_000
  const MAX_RELOADS_PER_WINDOW := 3

  /** The clock, and whether session storage can be read and written just now. */
  datatype Moment = Moment(now: int, canRead: bool, canWrite: bool)

  /** A reload the module asked for: when, whether nobody tapped for it, and on which page load. */
  datatype Reload = Reload(at: int, automatic: bool, page: nat)

  /** `handles[h]` is the `released` flag of the h-th critical section opened on this page. */
  datatype State = State(
    criticalSections: int, updateDeferred: bool, reloadIssued: bool, handles: seq<bool>,
    log: seq<int>, page: nat, history: seq<Reload>)

  const NEW_SESSION := State(0, false, false, [], [], 0, [])

  // ---------------------------------------------------------------- what each call does

  function Newer(times: seq<int>, cutoff: int): seq<int> {
    if times == [] then []
    else
      var last := times[|times| - 1];
      Newer(times[..|times| - 1], cutoff) + if last > cutoff then [last] else []
  }

  function RecentUpdateReloads(log: seq<int>, m: Moment): seq<int> {
    if m.canRead then Newer(log, m.now - RELOAD_STORM_WINDOW_MS) else []
  }

  predicate IsReloadStorm(log: seq<int>, m: Moment) {
    |RecentUpdateReloads(log, m)| >= MAX_RELOADS_PER_WINDOW
  }

  function Reloading(s: State, m: Moment, automatic: bool): State {
    s.(reloadIssued := true,
       log := if m.canWrite then RecentUpdateReloads(s.log, m) + [m.now] else s.log,
       history := s.history + [Reload(m.now, automatic, s.page)])
  }

  function Apply(s: State, m: Moment): State {
    if s.reloadIssued then s
    else if s.criticalSections > 0 || IsReloadStorm(s.log, m) then s.(updateDeferred := true)
    else Reloading(s, m, true)
  }

  function ApplyNow(s: State, m: Moment): State {
    if s.reloadIssued then s
    else if s.criticalSections > 0 then s.(updateDeferred := true)
    else Reloading(s, m, false)
  }

  function Retry(s: State, m: Moment): State {
    if s.updateDeferred then Apply(s, m) else s
  }

  function Begin(s: State): State {
    s.(criticalSections := s.criticalSections + 1, handles := s.handles + [false])
  }

  function Release(s: State, h: nat, m: Moment): State {
    if h >= |s.handles| || s.handles[h] then s
    else
      var released := s.(handles := s.handles[h := true], criticalSections := s.criticalSections - 1);
      if released.criticalSections == 0 then Retry(released, m) else released
  }

  /** A page load starts the module afresh; session storage stays. */
  function Load(s: State): State {
    State(0, false, false, [], s.log, s.page + 1, s.history)
  }

  // ---------------------------------------------------------------- the module

  class UpdateModule {
    var criticalSections: int
    var updateDeferred: bool
    var reloadIssued: bool
    var handles: seq<bool>
    var sessionLog: seq<int>
    ghost var page: nat
    ghost var history: seq<Reload>

    ghost function View(): State
      reads this
    {
      State(criticalSections, updateDeferred, reloadIssued, handles, sessionLog, page, history)
    }

    constructor ()
      ensures View() == NEW_SESSION
    {
      criticalSections, updateDeferred, reloadIssued, handles, sessionLog := 0, false, false, [], [];
      page, history := 0, [];
    }

    method BeginCriticalWork() returns (handle: nat)
      modifies this
      ensures handle == |old(handles)|
      ensures View() == Begin(old(View()))
    {
      handle := |handles|;
      criticalSections := criticalSections + 1;
      handles := handles + [false];
    }

    method ReleaseCriticalWork(handle: nat, m: Moment)
      requires handle < |handles|
      modifies this
      ensures View() == Release(old(View()), handle, m)
    {
      if handles[handle] {
        return;
      }
      handles := handles[handle := true];
      criticalSections := criticalSections - 1;
      if criticalSections == 0 && updateDeferred {
        ApplyUpdate(m);
      }
    }

    method ApplyUpdate(m: Moment)
      modifies this
      ensures View() == Apply(old(View()), m)
    {
      if reloadIssued {
        return;
      }
      if criticalSections > 0 || IsReloadStorm(sessionLog, m) {
        if !updateDeferred {
          updateDeferred := true;
        }
        return;
      }
      reloadIssued := true;
      NoteUpdateReload(m);
      history := history + [Reload(m.now, true, page)];
    }

    method ApplyUpdateNow(m: Moment)
      modifies this
      ensures View() == ApplyNow(old(View()), m)
    {
      if reloadIssued {
        return;
      }
      if criticalSections > 0 {
        if !updateDeferred {
          updateDeferred := true;
        }
        return;
      }
      reloadIssued := true;
      NoteUpdateReload(m);
      history := history + [Reload(m.now, false, page)];
    }

    method NoteUpdateReload(m: Moment)
      modifies this`sessionLog
      ensures sessionLog == if m.canWrite then RecentUpdateReloads(old(sessionLog), m) + [m.now] else old(sessionLog)
    {
      if m.canWrite {
        sessionLog := RecentUpdateReloads(sessionLog, m) + [m.now];
      }
    }

    method RetryDeferredUpdate(m: Moment)
      modifies this
      ensures View() == Retry(old(View()), m)
    {
      if updateDeferred {
        ApplyUpdate(m);
      }
    }

    method LoadPage()
      modifies this
      ensures View() == Load(old(View()))
    {
      criticalSections, updateDeferred, reloadIssued, handles := 0, false, false, [];
      page := page + 1;
    }
  }

  // ---------------------------------------------------------------- every run

  datatype Call = Opening | Releasing(handle: nat) | Updating | Retrying | Tapping | Loading

  datatype Event = Event(call: Call, at: Moment)

  function Next(s: State, e: Event): State {
    match e.call
    case Opening => Begin(s)
    case Releasing(h) => Release(s, h, e.at)
    case Updating => Apply(s, e.at)
    case Retrying => Retry(s, e.at)
    case Tapping => ApplyNow(s, e.at)
    case Loading => Load(s)
  }

  function Run(events: seq<Event>): State {
    if events == [] then NEW_SESSION else Next(Run(events[..|events| - 1]), events[|events| - 1])
  }

  function Unreleased(handles: seq<bool>): nat {
    if handles == [] then 0
    else Unreleased(handles[..|handles| - 1]) + if handles[|handles| - 1] then 0 else 1
  }

  lemma {:induction false} ReleaseCounts(handles: seq<bool>, h: nat)
    requires h < |handles| && !handles[h]
    ensures Unreleased(handles[h := true]) == Unreleased(handles) - 1
  {
    var last := |handles| - 1;
    if h == last {
      assert handles[h := true][..last] == handles[..last];
    } else {
      assert handles[h := true][..last] == handles[..last][h := true];
      ReleaseCounts(handles[..last], h);
    }
  }

  lemma OpenCounts(handles: seq<bool>)
    ensures Unreleased(handles + [false]) == Unreleased(handles) + 1
  {
    assert (handles + [false])[..|handles|] == handles;
  }

  lemma {:induction false} NothingOpenIff(handles: seq<bool>)
    ensures Unreleased(handles) == 0 <==> forall h | 0 <= h < |handles| :: handles[h]
  {
    if handles != [] {
      NothingOpenIff(handles[..|handles| - 1]);
    }
  }

  /** The counter counts the open sections, and each page load has asked for one reload at most. */
  ghost predicate Inv(s: State) {
    && s.criticalSections == Unreleased(s.handles)
    && (forall i | 0 <= i < |s.history| :: s.history[i].page <= s.page)
    && (forall i, j | 0 <= i < j < |s.history| :: s.history[i].page < s.history[j].page)
    && (s.reloadIssued <==> s.history != [] && s.history[|s.history| - 1].page == s.page)
  }

  lemma ReloadKeeps(s: State, log: seq<int>, at: int, automatic: bool)
    requires Inv(s) && !s.reloadIssued
    ensures Inv(s.(reloadIssued := true, log := log, history := s.history + [Reload(at, automatic, s.page)]))
  {}

  lemma ReloadingKeeps(s: State, m: Moment, automatic: bool)
    requires Inv(s) && !s.reloadIssued
    ensures Inv(Reloading(s, m, automatic))
  {
    ReloadKeeps(s, if m.canWrite then RecentUpdateReloads(s.log, m) + [m.now] else s.log, m.now, automatic);
  }

  lemma ApplyKeeps(s: State, m: Moment)
    requires Inv(s)
    ensures Inv(Apply(s, m)) && Inv(ApplyNow(s, m)) && Inv(Retry(s, m))
  {
    if !s.reloadIssued {
      ReloadingKeeps(s, m, true);
      ReloadingKeeps(s, m, false);
    }
  }

  /** The state right after a release has taken its section off the counter. */
  function Marked(s: State, h: nat): State
    requires h < |s.handles|
  {
    s.(handles := s.handles[h := true], criticalSections := s.criticalSections - 1)
  }

  lemma MarkedKeeps(s: State, h: nat)
    requires Inv(s) && h < |s.handles| && !s.handles[h]
    ensures Inv(Marked(s, h))
  {
    ReleaseCounts(s.handles, h);
  }

  lemma ReleaseKeeps(s: State, h: nat, m: Moment)
    requires Inv(s)
    ensures Inv(Release(s, h, m))
  {
    if h < |s.handles| && !s.handles[h] {
      MarkedKeeps(s, h);
      ApplyKeeps(Marked(s, h), m);
    }
  }

  lemma NextKeeps(s: State, e: Event)
    requires Inv(s)
    ensures Inv(Next(s, e))
  {
    match e.call
    case Opening => OpenCounts(s.handles);
    case Releasing(h) => ReleaseKeeps(s, h, e.at);
    case Updating => ApplyKeeps(s, e.at);
    case Retrying => ApplyKeeps(s, e.at);
    case Tapping => ApplyKeeps(s, e.at);
    case Loading =>
  }

  lemma {:induction false} RunKeeps(events: seq<Event>)
    ensures Inv(Run(events))
  {
    if events != [] {
      RunKeeps(events[..|events| - 1]);
      NextKeeps(Run(events[..|events| - 1]), events[|events| - 1]);
    }
  }

  /** The counter is the number of handles not yet released, on every run. */
  lemma CounterIsUnreleased(events: seq<Event>)
    ensures Run(events).criticalSections == Unreleased(Run(events).handles)
  {
    RunKeeps(events);
  }

  /** No page load asks for two reloads. */
  lemma OneReloadPerPage(events: seq<Event>, i: nat, j: nat)
    requires i < j < |Run(events).history|
    ensures Run(events).history[i].page != Run(events).history[j].page
  {
    RunKeeps(events);
  }

  /** An event that asks for a reload leaves no critical section open behind it. */
  lemma NoReloadWhileCritical(events: seq<Event>, e: Event)
    requires Run(events + [e]).history != Run(events).history
    ensures
      var s := Run(events + [e]);
      && s.criticalSections == 0
      && forall h | 0 <= h < |s.handles| :: s.handles[h]
  {
    assert (events + [e])[..|events|] == events;
    RunKeeps(events + [e]);
    NothingOpenIff(Run(events + [e]).handles);
  }

  /** Releasing the last open section applies a waiting update, unless the breaker holds it. */
  lemma LastReleaseApplies(events: seq<Event>, h: nat, m: Moment)
    requires
      var s := Run(events);
      && s.updateDeferred && !s.reloadIssued
      && h < |s.handles| && !s.handles[h]
      && forall k | 0 <= k < |s.handles| && k != h :: s.handles[k]
    ensures
      var s := Run(events);
      var after := Run(events + [Event(Releasing(h), m)]);
      if IsReloadStorm(s.log, m) then after.history == s.history && after.updateDeferred
      else after.history == s.history + [Reload(m.now, true, s.page)]
  {
    var s := Run(events);
    RunKeeps(events);
    ReleaseCounts(s.handles, h);
    NothingOpenIff(s.handles[h := true]);
    assert (events + [Event(Releasing(h), m)])[..|events|] == events;
  }

  /** A deferred update is kept until the page goes away, and a retry lands it as soon as that is safe. */
  lemma DeferralIsKept(events: seq<Event>, e: Event)
    requires Run(events).updateDeferred
    ensures
      var s := Run(events);
      var after := Run(events + [e]);
      && (e.call.Loading? || after.updateDeferred)
      && (e.call.Retrying? && !s.reloadIssued ==>
            (after.reloadIssued <==> s.criticalSections == 0 && !IsReloadStorm(s.log, e.at)))
  {
    assert (events + [e])[..|events|] == events;
    RunKeeps(events);
  }

  // ---------------------------------------------------------------- the storm breaker

  function Times(history: seq<Reload>): seq<int> {
    if history == [] then [] else Times(history[..|history| - 1]) + [history[|history| - 1].at]
  }

  predicate StorageWorks(events: seq<Event>) {
    forall i | 0 <= i < |events| :: events[i].at.canRead && events[i].at.canWrite
  }

  predicate ClockNeverBack(events: seq<Event>) {
    forall i, j | 0 <= i < j < |events| :: events[i].at.now <= events[j].at.now
  }

  lemma {:induction false} NewerTwice(times: seq<int>, a: int, b: int)
    requires a <= b
    ensures Newer(Newer(times, a), b) == Newer(times, b)
  {
    if times != [] {
      var last := times[|times| - 1];
      var init := Newer(times[..|times| - 1], a);
      NewerTwice(times[..|times| - 1], a, b);
      if last > a {
        assert (init + [last])[..|init|] == init;
      } else {
        assert init + [] == init;
      }
    }
  }

  lemma NewerAppend(times: seq<int>, t: int, cutoff: int)
    ensures Newer(times + [t], cutoff) == Newer(times, cutoff) + if t > cutoff then [t] else []
  {
    assert (times + [t])[..|times|] == times;
  }

  lemma TimesAppend(history: seq<Reload>, r: Reload)
    ensures Times(history + [r]) == Times(history) + [r.at]
  {
    assert (history + [r])[..|history|] == history;
  }

  /** From `from` on, the log counts what the times do. */
  ghost predicate CountsAlike(log: seq<int>, times: seq<int>, from: int) {
    forall cutoff :: cutoff >= from ==> Newer(log, cutoff) == Newer(times, cutoff)
  }

  ghost predicate InOrder(history: seq<Reload>, clock: int) {
    && (forall i, j | 0 <= i < j < |history| :: history[i].at <= history[j].at)
    && (forall i | 0 <= i < |history| :: history[i].at <= clock)
  }

  /** The log holds every reload that can still count, and the history is in order of time. */
  ghost predicate Logged(s: State, clock: int) {
    InOrder(s.history, clock) && CountsAlike(s.log, Times(s.history), clock - RELOAD_STORM_WINDOW_MS)
  }

  /** A log cut down to the window and extended counts what the whole history counts. */
  lemma CutLogAgrees(log: seq<int>, times: seq<int>, from: int, now: int)
    requires CountsAlike(log, times, from)
    ensures CountsAlike(Newer(log, from) + [now], times + [now], from)
  {
    forall cutoff | cutoff >= from ensures Newer(Newer(log, from) + [now], cutoff) == Newer(times + [now], cutoff) {
      NewerAppend(Newer(log, from), now, cutoff);
      NewerAppend(times, now, cutoff);
      NewerTwice(log, from, cutoff);
    }
  }

  lemma InOrderAppend(history: seq<Reload>, clock: int, r: Reload)
    requires InOrder(history, clock) && clock <= r.at
    ensures InOrder(history + [r], r.at)
  {
  }

  lemma LoggedBy(s: State, clock: int, times: seq<int>)
    requires InOrder(s.history, clock) && times == Times(s.history)
    requires CountsAlike(s.log, times, clock - RELOAD_STORM_WINDOW_MS)
    ensures Logged(s, clock)
  {
  }

  lemma LoggedLater(s: State, clock: int, later: int)
    requires Logged(s, clock) && clock <= later
    ensures Logged(s, later)
  {}

  /** The log after a reload at `now`. */
  lemma CutLogKeeps(s: State, now: int, after: State, r: Reload)
    requires Logged(s, now) && r.at == now
    requires after.history == s.history + [r] && after.log == Newer(s.log, now - RELOAD_STORM_WINDOW_MS) + [now]
    ensures Logged(after, now)
  {
    InOrderAppend(s.history, now, r);
    TimesAppend(s.history, r);
    CutLogAgrees(s.log, Times(s.history), now - RELOAD_STORM_WINDOW_MS, now);
    LoggedBy(after, now, Times(s.history) + [now]);
  }

  lemma ReloadingKeepsLog(s: State, m: Moment, automatic: bool, clock: int)
    requires Logged(s, clock) && clock <= m.now && m.canRead && m.canWrite
    ensures Logged(Reloading(s, m, automatic), m.now)
  {
    LoggedLater(s, clock, m.now);
    CutLogKeeps(s, m.now, Reloading(s, m, automatic), Reload(m.now, automatic, s.page));
  }

  /** A history in which an automatic reload and the third one before it span the window. */
  ghost predicate Spaced(history: seq<Reload>) {
    forall a, d | 0 <= a && a + 3 <= d < |history| ::
      history[d].automatic ==> history[d].at - history[a].at >= RELOAD_STORM_WINDOW_MS
  }

  lemma {:induction false} CountedWhenNewer(history: seq<Reload>, cutoff: int, a: nat)
    requires a <= |history|
    requires forall i | a <= i < |history| :: history[i].at > cutoff
    ensures |Newer(Times(history), cutoff)| >= |history| - a
  {
    if a < |history| {
      var last := |history| - 1;
      CountedWhenNewer(history[..last], cutoff, a);
      NewerAppend(Times(history[..last]), history[last].at, cutoff);
    }
  }

  lemma SpacedAppend(history: seq<Reload>, r: Reload)
    requires Spaced(history)
    requires forall a | 0 <= a <= |history| - 3 :: r.at - history[a].at >= RELOAD_STORM_WINDOW_MS
    ensures Spaced(history + [r])
  {}

  lemma ThreeRecentIsStorm(s: State, m: Moment, clock: int, a: nat)
    requires Logged(s, clock) && clock <= m.now && m.canRead
    requires a <= |s.history| - 3 && s.history[a].at > m.now - RELOAD_STORM_WINDOW_MS
    ensures IsReloadStorm(s.log, m)
  {
    var cutoff := m.now - RELOAD_STORM_WINDOW_MS;
    forall i | a <= i < |s.history| ensures s.history[i].at > cutoff {
      assert s.history[a].at <= s.history[i].at;
    }
    CountedWhenNewer(s.history, cutoff, a);
    assert Newer(s.log, cutoff) == Newer(Times(s.history), cutoff);
  }

  lemma ApplySpaces(s: State, m: Moment, clock: int)
    requires Logged(s, clock) && Spaced(s.history) && clock <= m.now && m.canRead
    requires !IsReloadStorm(s.log, m)
    ensures Spaced(Reloading(s, m, true).history)
  {
    forall a: nat | a <= |s.history| - 3 ensures m.now - s.history[a].at >= RELOAD_STORM_WINDOW_MS {
      if s.history[a].at > m.now - RELOAD_STORM_WINDOW_MS {
        ThreeRecentIsStorm(s, m, clock, a);
      }
    }
    SpacedAppend(s.history, Reload(m.now, true, s.page));
  }

  lemma ApplyKeepsLog(s: State, m: Moment)
    requires Logged(s, m.now) && Spaced(s.history) && m.canRead && m.canWrite
    ensures Logged(Apply(s, m), m.now) && Spaced(Apply(s, m).history)
    ensures Logged(Retry(s, m), m.now) && Spaced(Retry(s, m).history)
  {
    ReloadingKeepsLog(s, m, true, m.now);
    if !IsReloadStorm(s.log, m) {
      ApplySpaces(s, m, m.now);
    }
  }

  lemma SpacedTap(history: seq<Reload>, r: Reload)
    requires Spaced(history) && !r.automatic
    ensures Spaced(history + [r])
  {}

  lemma TapKeepsLog(s: State, m: Moment)
    requires Logged(s, m.now) && Spaced(s.history) && m.canRead && m.canWrite
    ensures Logged(ApplyNow(s, m), m.now) && Spaced(ApplyNow(s, m).history)
  {
    ReloadingKeepsLog(s, m, false, m.now);
    SpacedTap(s.history, Reload(m.now, false, s.page));
  }

  lemma {:induction false} StormInv(events: seq<Event>, clock: int)
    requires StorageWorks(events) && ClockNeverBack(events)
    requires forall i | 0 <= i < |events| :: events[i].at.now <= clock
    ensures Logged(Run(events), clock) && Spaced(Run(events).history)
  {
    if events != [] {
      var last := |events| - 1;
      var s, e := Run(events[..last]), events[last];
      StormInv(events[..last], e.at.now);
      StepKeepsLog(s, e);
      LoggedLater(Run(events), e.at.now, clock);
    }
  }

  lemma ReleaseKeepsLog(s: State, h: nat, m: Moment)
    requires Logged(s, m.now) && Spaced(s.history) && m.canRead && m.canWrite
    ensures Logged(Release(s, h, m), m.now) && Spaced(Release(s, h, m).history)
  {
    if h < |s.handles| && !s.handles[h] {
      ApplyKeepsLog(Marked(s, h), m);
    }
  }

  lemma StepKeepsLog(s: State, e: Event)
    requires Logged(s, e.at.now) && Spaced(s.history)
    requires e.at.canRead && e.at.canWrite
    ensures Logged(Next(s, e), e.at.now) && Spaced(Next(s, e).history)
  {
    match e.call
    case Opening =>
    case Releasing(h) => ReleaseKeepsLog(s, h, e.at);
    case Updating => ApplyKeepsLog(s, e.at);
    case Retrying => ApplyKeepsLog(s, e.at);
    case Tapping => TapKeepsLog(s, e.at);
    case Loading =>
  }

  /** Across all page loads of a session, an automatic reload comes two minutes after the third one before it. */
  lemma FourReloadsSpanWindow(events: seq<Event>, a: nat, d: nat)
    requires StorageWorks(events) && ClockNeverBack(events)
    requires a + 3 <= d < |Run(events).history|
    requires Run(events).history[d].automatic
    ensures Run(events).history[d].at - Run(events).history[a].at >= 120_000
  {
    StormInv(events, if events == [] then 0 else events[|events| - 1].at.now);
  }

  lemma {:induction false} OldNotCounted(history: seq<Reload>, cutoff: int, k: nat)
    requires k <= |history|
    requires forall i | 0 <= i < k :: history[i].at <= cutoff
    ensures |Newer(Times(history), cutoff)| <= |history| - k
  {
    if history != [] {
      var last := |history| - 1;
      OldNotCounted(history[..last], cutoff, if k > last then last else k);
      NewerAppend(Times(history[..last]), history[last].at, cutoff);
    }
  }

  /** The third newest reload is less than two minutes old. */
  ghost predicate ThreeRecent(history: seq<Reload>, now: int) {
    |history| >= 3 && now - history[|history| - 3].at < 120_000
  }

  lemma FewRecentIsCalm(s: State, m: Moment)
    requires Logged(s, m.now) && m.canRead
    requires !ThreeRecent(s.history, m.now)
    ensures !IsReloadStorm(s.log, m)
  {
    var cutoff := m.now - RELOAD_STORM_WINDOW_MS;
    var k := if |s.history| >= 3 then |s.history| - 2 else 0;
    forall i | 0 <= i < k ensures s.history[i].at <= cutoff {
      assert s.history[i].at <= s.history[|s.history| - 3].at;
    }
    OldNotCounted(s.history, cutoff, k);
    assert Newer(s.log, cutoff) == Newer(Times(s.history), cutoff);
  }

  lemma StormIff(s: State, m: Moment)
    requires Logged(s, m.now) && m.canRead
    ensures IsReloadStorm(s.log, m) <==> ThreeRecent(s.history, m.now)
  {
    if ThreeRecent(s.history, m.now) {
      ThreeRecentIsStorm(s, m, m.now, |s.history| - 3);
    } else {
      FewRecentIsCalm(s, m);
    }
  }

  lemma LastIsLatest(events: seq<Event>, now: int)
    requires ClockNeverBack(events)
    requires events != [] ==> events[|events| - 1].at.now <= now
    ensures forall i | 0 <= i < |events| :: events[i].at.now <= now
  {
    forall i | 0 <= i < |events| ensures events[i].at.now <= now {
      assert i < |events| - 1 ==> events[i].at.now <= events[|events| - 1].at.now;
    }
  }

  /** The breaker holds an update back exactly while three reloads are recent. */
  lemma StormIffThreeRecent(events: seq<Event>, m: Moment)
    requires StorageWorks(events) && ClockNeverBack(events) && m.canRead
    requires events != [] ==> events[|events| - 1].at.now <= m.now
    ensures
      IsReloadStorm(Run(events).log, m) <==> ThreeRecent(Run(events).history, m.now)
  {
    LastIsLatest(events, m.now);
    StormInv(events, m.now);
    StormIff(Run(events), m);
  }

  // ---------------------------------------------------------------- which calls reload

  /** A critical section of this page is open. */
  ghost predicate SectionOpen(s: State) {
    exists h | 0 <= h < |s.handles| :: !s.handles[h]
  }

  /** This page load has asked for a reload. */
  ghost predicate ReloadAsked(s: State) {
    exists i | 0 <= i < |s.history| :: s.history[i].page == s.page
  }

  lemma GateIff(events: seq<Event>)
    ensures
      var s := Run(events);
      && (s.criticalSections > 0 <==> SectionOpen(s))
      && (s.reloadIssued <==> ReloadAsked(s))
  {
    var s := Run(events);
    RunKeeps(events);
    NothingOpenIff(s.handles);
    if ReloadAsked(s) {
      var i :| 0 <= i < |s.history| && s.history[i].page == s.page;
      assert s.history[|s.history| - 1].page <= s.page;
    }
  }

  lemma OneMoreEvent(events: seq<Event>, e: Event)
    ensures Run(events + [e]) == Next(Run(events), e)
  {
    assert (events + [e])[..|events|] == events;
  }

  /** A tap reloads exactly unless a section is open or this page has asked already, storm or not. */
  lemma TapReloadsIff(events: seq<Event>, m: Moment)
    ensures
      var s := Run(events);
      var after := Run(events + [Event(Tapping, m)]);
      if ReloadAsked(s) then after == s
      else if SectionOpen(s) then after == s.(updateDeferred := true)
      else
        && after.history == s.history + [Reload(m.now, false, s.page)]
        && after.handles == s.handles && after.updateDeferred == s.updateDeferred
  {
    GateIff(events);
    OneMoreEvent(events, Event(Tapping, m));
  }

  /** An update reloads exactly unless, besides, three reloads are recent; what is held back is deferred. */
  lemma UpdateReloadsIff(events: seq<Event>, m: Moment)
    requires StorageWorks(events) && ClockNeverBack(events) && m.canRead
    requires events != [] ==> events[|events| - 1].at.now <= m.now
    ensures
      var s := Run(events);
      var after := Run(events + [Event(Updating, m)]);
      if ReloadAsked(s) then after == s
      else if SectionOpen(s) || ThreeRecent(s.history, m.now) then after == s.(updateDeferred := true)
      else
        && after.history == s.history + [Reload(m.now, true, s.page)]
        && after.handles == s.handles && after.updateDeferred == s.updateDeferred
  {
    GateIff(events);
    StormIffThreeRecent(events, m);
    OneMoreEvent(events, Event(Updating, m));
  }

  /** Without a readable log nothing counts as a storm. */
  lemma UnreadableLogHoldsNothing(events: seq<Event>, m: Moment)
    requires !m.canRead && !SectionOpen(Run(events)) && !ReloadAsked(Run(events))
    ensures
      var s := Run(events);
      Run(events + [Event(Updating, m)]).history == s.history + [Reload(m.now, true, s.page)]
  {
    GateIff(events);
    OneMoreEvent(events, Event(Updating, m));
  }

  // ---------------------------------------------------------------- which sections are open

  /** The sections opened on this page. */
  function OpenedSince(events: seq<Event>): nat {
    if events == [] then 0
    else
      var earlier := OpenedSince(events[..|events| - 1]);
      match events[|events| - 1].call
      case Opening => earlier + 1
      case Loading => 0
      case _ => earlier
  }

  /** Call `i` releases section `h`, opened before it, and the page is still the same. */
  ghost predicate ReleasesAt(events: seq<Event>, i: nat, h: nat) {
    && i < |events| && events[i].call == Releasing(h) && h < OpenedSince(events[..i])
    && forall k | i < k < |events| :: !events[k].call.Loading?
  }

  ghost predicate WasReleased(events: seq<Event>, h: nat) {
    exists i: nat :: ReleasesAt(events, i, h)
  }

  lemma ReleasedNext(events: seq<Event>, e: Event, h: nat)
    ensures WasReleased(events + [e], h) <==>
      !e.call.Loading? && (WasReleased(events, h) || (e.call == Releasing(h) && h < OpenedSince(events)))
  {
    var all := events + [e];
    assert all[..|events|] == events;
    forall i: nat | i < |events| ensures ReleasesAt(all, i, h) <==> ReleasesAt(events, i, h) && !e.call.Loading? {
      assert all[..i] == events[..i] && all[|events|] == e;
      if ReleasesAt(all, i, h) {
        forall k | i < k < |events| ensures !events[k].call.Loading? {
          assert all[k] == events[k];
        }
      }
    }
    if WasReleased(all, h) {
      var i: nat :| ReleasesAt(all, i, h);
      if i < |events| {
        assert ReleasesAt(events, i, h);
      }
    }
    if e.call == Releasing(h) && h < OpenedSince(events) {
      assert ReleasesAt(all, |events|, h);
    }
    if WasReleased(events, h) && !e.call.Loading? {
      var i: nat :| ReleasesAt(events, i, h);
      assert ReleasesAt(all, i, h);
    }
  }

  /** A section is released only once it is opened, and by a release since the page was loaded. */
  lemma {:induction false} OnlyOpenedReleased(events: seq<Event>, h: nat)
    requires WasReleased(events, h)
    ensures h < OpenedSince(events)
  {
    var init, e := events[..|events| - 1], events[|events| - 1];
    assert events == init + [e];
    ReleasedNext(init, e, h);
    if WasReleased(init, h) {
      OnlyOpenedReleased(init, h);
    }
  }

  /** On every run a section is closed exactly when it was released since the page was loaded. */
  lemma {:induction false} ReleasedIff(events: seq<Event>)
    ensures |Run(events).handles| == OpenedSince(events)
    ensures forall h: nat | h < |Run(events).handles| :: Run(events).handles[h] <==> WasReleased(events, h)
  {
    if events != [] {
      var init, e := events[..|events| - 1], events[|events| - 1];
      var before, after := Run(init), Run(events);
      assert events == init + [e];
      ReleasedIff(init);
      forall h: nat | h < |after.handles| ensures after.handles[h] <==> WasReleased(events, h) {
        ReleasedNext(init, e, h);
        if WasReleased(init, h) {
          OnlyOpenedReleased(init, h);
        }
      }
    }
  }
}

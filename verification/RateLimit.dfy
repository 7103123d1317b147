/** The fixed-window rate limiter with a bounded number of keys. */
module RateLimit {
  import opened Common
  import opened Ordered

  const MAX_KEYS: nat := 10_000
  const U32_MAX: nat := 4_294_967_295
  const I64_MAX: int := 9_223_372_036_854_775_807
  const I64_MIN: int := -9_223_372_036_854_775_808

  /** The end of a window is in Unix milliseconds. */
  datatype Window = Window(hits: nat, resetAt: int)

  type Windows = map<string, Window>

  datatype Decision = Decision(allowed: bool, limit: nat, remaining: nat, resetSeconds: int, windowSeconds: int)

  /** The fixed parameters of a limiter. */
  datatype Policy = Policy(limit: nat, windowMs: int)

  // --- Machine arithmetic -------------------------------------------------------------------

  function Saturate64(x: int): int {
    if x > I64_MAX then I64_MAX else if x < I64_MIN then I64_MIN else x
  }

  function NextHit(hits: nat): nat {
    if hits >= U32_MAX then U32_MAX else hits + 1
  }

  function CeilSeconds(ms: int): int {
    ms / 1000 + if ms % 1000 > 0 then 1 else 0
  }

  /** The fewest whole seconds that last at least ms. */
  lemma CeilSecondsIsLeast(ms: int)
    ensures CeilSeconds(ms) * 1000 >= ms
    ensures forall s: int :: s * 1000 >= ms ==> s >= CeilSeconds(ms)
  {
  }

  // --- One request ------------------------------------------------------------------------------

  /** The windows that have not ended. */
  function Live(w: Windows, now: int): Windows {
    map k | k in w && w[k].resetAt > now :: w[k]
  }

  function LiveWindow(w: Windows, key: string, now: int): Option<Window> {
    if key in w && w[key].resetAt > now then Some(w[key]) else None
  }

  /** What a full map drops before a new key: the ended windows, and one window
      that ends first when all are live. */
  ghost predicate MakesRoom(w: Windows, key: string, now: int, after: Windows) {
    if key in w || |w| < MAX_KEYS then after == w
    else if |Live(w, now)| < MAX_KEYS then after == Live(w, now)
    else EvictsFirst(Live(w, now), after)
  }

  ghost predicate EvictsFirst(live: Windows, after: Windows) {
    exists first :: first in live
      && (forall k :: k in live ==> live[first].resetAt <= live[k].resetAt)
      && after == live - {first}
  }

  /** The window of the key after one more request. */
  function HitWindow(w: Windows, key: string, now: int, policy: Policy): Window {
    var live := LiveWindow(w, key, now);
    if live.Some? then Window(NextHit(live.value.hits), live.value.resetAt)
    else Window(1, Saturate64(now + policy.windowMs))
  }

  function DecisionOf(window: Window, now: int, policy: Policy): Decision {
    Decision(
      window.hits <= policy.limit,
      policy.limit,
      if window.hits <= policy.limit then policy.limit - window.hits else 0,
      CeilSeconds(Saturate64(window.resetAt - now)),
      CeilSeconds(policy.windowMs))
  }

  /** One request of the bounded limiter. */
  ghost predicate Step(w: Windows, r: Request, policy: Policy, w': Windows, d: Decision) {
    exists room :: MakesRoom(w, r.key, r.now, room)
      && w' == room[r.key := HitWindow(w, r.key, r.now, policy)]
      && d == DecisionOf(HitWindow(w, r.key, r.now, policy), r.now, policy)
  }

  datatype Request = Request(key: string, now: int)

  // --- The limiter -------------------------------------------------------------------------------

  lemma {:induction false} FirstToEnd(w: Windows, keys: set<string>) returns (first: string)
    requires keys <= w.Keys && keys != {}
    ensures first in keys && forall k :: k in keys ==> w[first].resetAt <= w[k].resetAt
    decreases |keys|
  {
    var x :| x in keys;
    if keys == {x} {
      first := x;
    } else {
      var rest := keys - {x};
      assert keys == rest + {x};
      var y := FirstToEnd(w, rest);
      first := if w[x].resetAt <= w[y].resetAt then x else y;
    }
  }

  class Limiter {
    const policy: Policy
    var windows: Windows

    constructor (limit: nat, windowMs: int)
      ensures windows == map[] && policy == Policy(limit, windowMs)
    {
      policy := Policy(limit, windowMs);
      windows := map[];
    }

    /** Counts one request of the key. */
    method Check(key: string, now: int) returns (d: Decision)
      modifies this`windows
      ensures Step(old(windows), Request(key, now), policy, windows, d)
    {
      ghost var before := windows;
      if key !in windows && |windows| >= MAX_KEYS {
        windows := Live(windows, now);
        if |windows| >= MAX_KEYS {
          assert windows.Keys != {};
          ghost var earliest := FirstToEnd(windows, windows.Keys);
          var first :| first in windows && forall k :: k in windows ==> windows[first].resetAt <= windows[k].resetAt;
          assert EvictsFirst(windows, windows - {first});
          windows := windows - {first};
        }
      }
      ghost var room := windows;
      assert MakesRoom(before, key, now, room);
      var window := if key in windows then windows[key] else Window(0, Saturate64(now + policy.windowMs));
      if window.resetAt <= now {
        window := Window(0, Saturate64(now + policy.windowMs));
      }
      window := window.(hits := NextHit(window.hits));
      windows := windows[key := window];
      assert window == HitWindow(before, key, now, policy);
      d := DecisionOf(window, now, policy);
    }
  }

  // --- The map stays bounded ----------------------------------------------------------------------

  /** What remains after making room leaves a place for a new key. */
  lemma RoomIsMade(w: Windows, key: string, now: int, room: Windows)
    requires |w| <= MAX_KEYS && MakesRoom(w, key, now, room)
    ensures |room| <= MAX_KEYS && (|room| < MAX_KEYS || key in room)
  {
    var live := Live(w, now);
    FewerKeys(live, w);
    if key !in w && |w| >= MAX_KEYS && |live| >= MAX_KEYS {
      var first :| first in live && (forall k :: k in live ==> live[first].resetAt <= live[k].resetAt) && room == live - {first};
      OneFewer(live, first);
    }
  }

  lemma OneFewer(w: Windows, key: string)
    requires key in w
    ensures |w - {key}| == |w| - 1
  {
    assert (w - {key}).Keys == w.Keys - {key};
    assert |w - {key}| == |(w - {key}).Keys| && |w| == |w.Keys|;
  }

  lemma OneMore(w: Windows, key: string, window: Window)
    ensures |w[key := window]| == if key in w then |w| else |w| + 1
  {
    var more := w[key := window];
    assert more.Keys == w.Keys + {key};
    assert |more| == |more.Keys| && |w| == |w.Keys|;
    if key in w {
      assert w.Keys + {key} == w.Keys;
    }
  }

  /** No request makes the map larger than the limit of keys. */
  lemma StepKeepsBound(w: Windows, r: Request, policy: Policy, w': Windows, d: Decision)
    requires |w| <= MAX_KEYS && Step(w, r, policy, w', d)
    ensures |w'| <= MAX_KEYS
  {
    hide MakesRoom, HitWindow, DecisionOf;
    var room :| MakesRoom(w, r.key, r.now, room)
      && w' == room[r.key := HitWindow(w, r.key, r.now, policy)]
      && d == DecisionOf(HitWindow(w, r.key, r.now, policy), r.now, policy);
    RoomIsMade(w, r.key, r.now, room);
    OneMore(room, r.key, HitWindow(w, r.key, r.now, policy));
  }

  /** A run: the windows before and after every request, and the decisions. */
  datatype Run = Run(policy: Policy, requests: seq<Request>, states: seq<Windows>, decisions: seq<Decision>) {
    ghost predicate Valid() {
      && |states| == |requests| + 1 && |decisions| == |requests|
      && states[0] == map[]
      && (forall i :: 0 <= i < |requests| ==> Step(states[i], requests[i], policy, states[i + 1], decisions[i]))
      && (forall i :: 0 < i < |requests| ==> requests[i - 1].now <= requests[i].now)
      && (forall i :: 0 <= i < |requests| ==> I64_MIN <= requests[i].now <= I64_MAX)
    }
  }

  lemma {:induction false} RunStaysBounded(run: Run, i: nat)
    requires run.Valid() && i <= |run.requests|
    ensures |run.states[i]| <= 10_000
  {
    hide Step;
    if i > 0 {
      RunStaysBounded(run, i - 1);
      StepKeepsBound(run.states[i - 1], run.requests[i - 1], run.policy, run.states[i], run.decisions[i - 1]);
    }
  }

  // --- Refinement of the unbounded limiter ----------------------------------------------------------

  /** The limiter that never drops a window. */
  function UnboundedStep(u: Windows, r: Request, policy: Policy): Windows {
    u[r.key := HitWindow(u, r.key, r.now, policy)]
  }

  function UnboundedState(policy: Policy, requests: seq<Request>, i: nat): Windows
    requires i <= |requests|
  {
    if i == 0 then map[] else UnboundedStep(UnboundedState(policy, requests, i - 1), requests[i - 1], policy)
  }

  function UnboundedDecision(policy: Policy, requests: seq<Request>, i: nat): Decision
    requires i < |requests|
  {
    DecisionOf(HitWindow(UnboundedState(policy, requests, i), requests[i].key, requests[i].now, policy),
               requests[i].now, policy)
  }

  /** Fewer than the limit of live windows whenever a key without one arrives. */
  ghost predicate RoomForNewKeys(policy: Policy, requests: seq<Request>) {
    forall i :: 0 <= i < |requests| ==>
      var u := UnboundedState(policy, requests, i);
      LiveWindow(u, requests[i].key, requests[i].now).Some? || |Live(u, requests[i].now)| < MAX_KEYS
  }

  ghost predicate SameLive(w: Windows, u: Windows, now: int) {
    Live(w, now) == Live(u, now)
  }

  lemma SameLiveReflexive(w: Windows, now: int)
    ensures SameLive(w, w, now)
  {
  }

  lemma SameLiveLater(w: Windows, u: Windows, now: int, later: int)
    requires SameLive(w, u, now) && now <= later
    ensures SameLive(w, u, later)
  {
    assert forall k :: k in Live(w, later) ==> k in Live(w, now);
    assert forall k :: k in Live(u, later) ==> k in Live(u, now);
    forall k
      ensures k in Live(w, later) <==> k in Live(u, later)
      ensures k in Live(w, later) ==> Live(w, later)[k] == Live(u, later)[k]
    {
      if k in Live(w, now) {
        assert Live(w, now)[k] == Live(u, now)[k];
      }
    }
  }

  lemma LiveLookup(w: Windows, key: string, now: int)
    ensures LiveWindow(w, key, now) == if key in Live(w, now) then Some(Live(w, now)[key]) else None
  {
  }

  lemma LiveUpdate(w: Windows, key: string, window: Window, now: int)
    ensures Live(w[key := window], now) ==
      if window.resetAt > now then Live(w, now)[key := window] else Live(w, now) - {key}
  {
  }

  /** With room for the key, one request of both limiters decides alike and
      keeps the same live windows. */
  lemma StepRefines(w: Windows, u: Windows, r: Request, policy: Policy, w': Windows, d: Decision)
    requires SameLive(w, u, r.now) && Step(w, r, policy, w', d)
    requires LiveWindow(u, r.key, r.now).Some? || |Live(u, r.now)| < MAX_KEYS
    ensures d == DecisionOf(HitWindow(u, r.key, r.now, policy), r.now, policy)
    ensures SameLive(w', UnboundedStep(u, r, policy), r.now)
  {
    var room :| MakesRoom(w, r.key, r.now, room)
      && w' == room[r.key := HitWindow(w, r.key, r.now, policy)]
      && d == DecisionOf(HitWindow(w, r.key, r.now, policy), r.now, policy);
    LiveLookup(w, r.key, r.now);
    LiveLookup(u, r.key, r.now);
    assert Live(Live(w, r.now), r.now) == Live(w, r.now);
    assert Live(room, r.now) == Live(w, r.now);
    LiveUpdate(room, r.key, HitWindow(w, r.key, r.now, policy), r.now);
    LiveUpdate(u, r.key, HitWindow(u, r.key, r.now, policy), r.now);
  }

  lemma {:induction false} LiveWindowsAgree(run: Run, i: nat)
    requires run.Valid() && RoomForNewKeys(run.policy, run.requests) && i < |run.requests|
    ensures SameLive(run.states[i], UnboundedState(run.policy, run.requests, i), run.requests[i].now)
  {
    hide Step, SameLive, UnboundedStep, LiveWindow, Live, HitWindow, DecisionOf;
    if i == 0 {
      SameLiveReflexive(map[], run.requests[0].now);
    } else {
      LiveWindowsAgree(run, i - 1);
      var u := UnboundedState(run.policy, run.requests, i - 1);
      StepRefines(run.states[i - 1], u, run.requests[i - 1], run.policy, run.states[i], run.decisions[i - 1]);
      SameLiveLater(run.states[i], UnboundedState(run.policy, run.requests, i), run.requests[i - 1].now, run.requests[i].now);
    }
  }

  /** With room for every new key, every decision is the one of the limiter
      that never drops a window. */
  lemma DecisionsRefine(run: Run, i: nat)
    requires run.Valid() && RoomForNewKeys(run.policy, run.requests) && i < |run.requests|
    ensures run.decisions[i] == UnboundedDecision(run.policy, run.requests, i)
  {
    LiveWindowsAgree(run, i);
    StepRefines(run.states[i], UnboundedState(run.policy, run.requests, i), run.requests[i], run.policy,
                run.states[i + 1], run.decisions[i]);
  }

  // --- How often a key is allowed ----------------------------------------------------------------------

  /** The step of a request drops the live window of the key. */
  ghost predicate Evicts(run: Run, key: string, i: nat)
    requires run.Valid() && i < |run.requests|
  {
    LiveWindow(run.states[i], key, run.requests[i].now).Some? && key !in run.states[i + 1]
  }

  ghost predicate During(run: Run, from: int, i: nat)
    requires run.Valid() && i < |run.requests|
  {
    from <= run.requests[i].now < from + run.policy.windowMs
  }

  /** The allowed requests of the key among the first i, in the interval of one
      window length that begins at from. */
  ghost function AllowedWithin(run: Run, key: string, from: int, i: nat): nat
    requires run.Valid() && i <= |run.requests|
  {
    if i == 0 then 0
    else
      var one := During(run, from, i - 1) && run.requests[i - 1].key == key && run.decisions[i - 1].allowed;
      AllowedWithin(run, key, from, i - 1) + if one then 1 else 0
  }

  /** The times a live window of the key is dropped in the interval. */
  ghost function EvictionsWithin(run: Run, key: string, from: int, i: nat): nat
    requires run.Valid() && i <= |run.requests|
  {
    if i == 0 then 0
    else
      var one := During(run, from, i - 1) && Evicts(run, key, i - 1);
      EvictionsWithin(run, key, from, i - 1) + if one then 1 else 0
  }

  /** The requests a key may still make before end, by its live window: what the
      window has left, and one more window when this one ends earlier. */
  function Budget(window: Option<Window>, limit: nat, end: int): nat {
    if window.None? then limit
    else
      var left := if window.value.hits < limit then limit - window.value.hits else 0;
      if window.value.resetAt >= end then left else left + limit
  }

  function End(from: int, policy: Policy): int {
    if from + policy.windowMs <= I64_MAX then from + policy.windowMs else I64_MAX
  }

  ghost predicate Used(w: Windows) {
    forall k :: k in w ==> w[k].hits >= 1
  }

  lemma {:induction false} RunWindowsAreUsed(run: Run, i: nat)
    requires run.Valid() && i <= |run.requests|
    ensures Used(run.states[i])
  {
    if i > 0 {
      RunWindowsAreUsed(run, i - 1);
      var r := run.requests[i - 1];
      assert Step(run.states[i - 1], r, run.policy, run.states[i], run.decisions[i - 1]);
      StepKeepsWindows(run.states[i - 1], r, run.policy, run.states[i], run.decisions[i - 1]);
    }
  }

  /** A request changes no window but the one of its own key. */
  lemma StepKeepsWindows(w: Windows, r: Request, policy: Policy, w': Windows, d: Decision)
    requires Step(w, r, policy, w', d)
    ensures r.key in w' && w'[r.key] == HitWindow(w, r.key, r.now, policy)
    ensures d == DecisionOf(w'[r.key], r.now, policy)
    ensures forall k :: k in w' && k != r.key ==> k in w && w'[k] == w[k]
  {
  }

  lemma StepSpendsBudget(w: Windows, r: Request, policy: Policy, w': Windows, d: Decision, key: string, from: int)
    requires Step(w, r, policy, w', d)
    requires from <= r.now < End(from, policy) && policy.limit < U32_MAX
    ensures Budget(LiveWindow(w', key, r.now), policy.limit, End(from, policy))
              + (if r.key == key && d.allowed then 1 else 0)
         <= Budget(LiveWindow(w, key, r.now), policy.limit, End(from, policy))
              + (if LiveWindow(w, key, r.now).Some? && key !in w' then policy.limit else 0)
  {
    hide Step;
    StepKeepsWindows(w, r, policy, w', d);
  }

  lemma BudgetLater(w: Windows, key: string, limit: nat, end: int, now: int, later: int)
    requires now <= later < end
    ensures Budget(LiveWindow(w, key, later), limit, end) <= Budget(LiveWindow(w, key, now), limit, end)
  {
  }

  function Burst(limit: nat): nat {
    if limit == 0 then 0 else 2 * limit - 1
  }

  lemma UsedBudget(w: Windows, key: string, limit: nat, end: int, now: int)
    requires Used(w)
    ensures Budget(LiveWindow(w, key, now), limit, end) <= Burst(limit)
  {
  }

  lemma {:induction false} NothingBefore(run: Run, key: string, from: int, i: nat)
    requires run.Valid() && i <= |run.requests|
    requires i > 0 ==> run.requests[i - 1].now < from
    ensures AllowedWithin(run, key, from, i) == 0 && EvictionsWithin(run, key, from, i) == 0
  {
    hide Step, Evicts;
    if i > 0 {
      NothingBefore(run, key, from, i - 1);
    }
  }

  /** The budget that is left after the first i requests, the last of them in the
      interval, covers what the key was allowed. */
  lemma {:induction false} SpentWithinBudget(run: Run, key: string, from: int, i: nat)
    requires run.Valid() && 0 < i <= |run.requests|
    requires run.policy.limit < U32_MAX
    requires from <= run.requests[i - 1].now < End(from, run.policy)
    ensures AllowedWithin(run, key, from, i)
              + Budget(LiveWindow(run.states[i], key, run.requests[i - 1].now), run.policy.limit, End(from, run.policy))
         <= Burst(run.policy.limit) + run.policy.limit * EvictionsWithin(run, key, from, i)
  {
    hide Step, Budget, LiveWindow, Burst;
    var r, limit, end := run.requests[i - 1], run.policy.limit, End(from, run.policy);
    var w := run.states[i - 1];
    assert Step(w, r, run.policy, run.states[i], run.decisions[i - 1]);
    StepSpendsBudget(w, r, run.policy, run.states[i], run.decisions[i - 1], key, from);
    MoreEvictions(limit, EvictionsWithin(run, key, from, i - 1));
    if i == 1 || run.requests[i - 2].now < from {
      NothingBefore(run, key, from, i - 1);
      RunWindowsAreUsed(run, i - 1);
      UsedBudget(w, key, limit, end, r.now);
    } else {
      SpentWithinBudget(run, key, from, i - 1);
      BudgetLater(w, key, limit, end, run.requests[i - 2].now, r.now);
    }
  }

  lemma MoreEvictions(limit: nat, n: nat)
    ensures limit * (n + 1) == limit * n + limit
    ensures limit * 0 == 0
  {
  }

  /** In any interval of one window length a key is allowed fewer than two
      limits of requests, and one more limit for each time its live window is
      dropped in it. */
  lemma {:induction false} AllowedIsBounded(run: Run, key: string, from: int, i: nat)
    requires run.Valid() && i <= |run.requests|
    requires run.policy.limit < U32_MAX
    requires forall j :: 0 <= j < |run.requests| ==> run.requests[j].now < I64_MAX
    ensures AllowedWithin(run, key, from, i)
         <= Burst(run.policy.limit) + run.policy.limit * EvictionsWithin(run, key, from, i)
  {
    hide Step, Budget, LiveWindow, Burst, Evicts;
    if i == 0 || run.requests[i - 1].now < from {
      NothingBefore(run, key, from, i);
    } else if run.requests[i - 1].now < End(from, run.policy) {
      SpentWithinBudget(run, key, from, i);
    } else {
      AllowedIsBounded(run, key, from, i - 1);
    }
  }

  ghost predicate FitsMachine(w: Windows) {
    forall k :: k in w ==> w[k].hits <= U32_MAX && w[k].resetAt <= I64_MAX
  }

  /** The two cases that the bound leaves out allow every request: the largest
      limit, which the saturated count never passes, and the last millisecond,
      in which no window is live. */
  lemma UnboundedCases(w: Windows, r: Request, policy: Policy, w': Windows, d: Decision)
    requires FitsMachine(w) && Step(w, r, policy, w', d)
    requires policy.limit == 4_294_967_295 || (r.now == I64_MAX && policy.limit > 0)
    ensures d.allowed && FitsMachine(w')
  {
    hide Step;
    StepKeepsWindows(w, r, policy, w', d);
  }

  // --- No request is denied too early ------------------------------------------------------------------

  /** The requests of the key among the first i, from an instant on. */
  ghost function RequestsSince(run: Run, key: string, since: int, i: nat): nat
    requires run.Valid() && i <= |run.requests|
  {
    if i == 0 then 0
    else
      var r := run.requests[i - 1];
      RequestsSince(run, key, since, i - 1) + if r.key == key && r.now >= since then 1 else 0
  }

  lemma {:induction false} FewerSinceLater(run: Run, key: string, early: int, late: int, i: nat)
    requires run.Valid() && i <= |run.requests| && early <= late
    ensures RequestsSince(run, key, late, i) <= RequestsSince(run, key, early, i)
  {
    hide Step;
    if i > 0 {
      FewerSinceLater(run, key, early, late, i - 1);
    }
  }

  /** A window began at a request of its key. */
  lemma {:induction false} WindowBegan(run: Run, key: string, i: nat)
    requires run.Valid() && 0 < i <= |run.requests| && run.policy.windowMs >= 0
    ensures key in run.states[i] ==> run.states[i][key].resetAt - run.policy.windowMs <= run.requests[i - 1].now
  {
    hide Step;
    var w, r := run.states[i - 1], run.requests[i - 1];
    assert Step(w, r, run.policy, run.states[i], run.decisions[i - 1]);
    StepKeepsWindows(w, r, run.policy, run.states[i], run.decisions[i - 1]);
    if i > 1 {
      WindowBegan(run, key, i - 1);
    }
  }

  /** A window counts no more requests than the key made since it began. */
  lemma {:induction false} WindowCountsRequests(run: Run, key: string, i: nat)
    requires run.Valid() && i <= |run.requests| && run.policy.windowMs >= 0
    ensures key in run.states[i] ==>
      run.states[i][key].hits <= RequestsSince(run, key, run.states[i][key].resetAt - run.policy.windowMs, i)
  {
    hide Step;
    if i > 0 {
      WindowCountsRequests(run, key, i - 1);
      WindowBegan(run, key, i);
      var w, r := run.states[i - 1], run.requests[i - 1];
      assert Step(w, r, run.policy, run.states[i], run.decisions[i - 1]);
      StepKeepsWindows(w, r, run.policy, run.states[i], run.decisions[i - 1]);
    }
  }

  /** A denied request comes after at least `limit` requests of its key within one
      window length. */
  lemma DeniedOnlyOverLimit(run: Run, i: nat)
    requires run.Valid() && i < |run.requests| && run.policy.windowMs >= 0
    requires !run.decisions[i].allowed
    ensures RequestsSince(run, run.requests[i].key, run.requests[i].now - run.policy.windowMs + 1, i) >= run.policy.limit
  {
    hide Step;
    var w, r := run.states[i], run.requests[i];
    assert Step(w, r, run.policy, run.states[i + 1], run.decisions[i]);
    StepKeepsWindows(w, r, run.policy, run.states[i + 1], run.decisions[i]);
    if run.policy.limit > 0 {
      WindowCountsRequests(run, r.key, i);
      FewerSinceLater(run, r.key, r.now - run.policy.windowMs + 1, w[r.key].resetAt - run.policy.windowMs, i);
    }
  }

  // --- No live window is dropped while there is room --------------------------------------------------

  lemma RoomKeepsLiveWindows(run: Run, key: string, i: nat)
    requires run.Valid() && RoomForNewKeys(run.policy, run.requests) && i < |run.requests|
    ensures !Evicts(run, key, i)
  {
    LiveWindowsAgree(run, i);
    var w, r, u := run.states[i], run.requests[i], UnboundedState(run.policy, run.requests, i);
    LiveLookup(w, r.key, r.now);
    LiveLookup(u, r.key, r.now);
    LiveLookup(w, key, r.now);
    assert Step(w, r, run.policy, run.states[i + 1], run.decisions[i]);
  }

  lemma {:induction false} NoEvictionsWithRoom(run: Run, key: string, from: int, i: nat)
    requires run.Valid() && RoomForNewKeys(run.policy, run.requests) && i <= |run.requests|
    ensures EvictionsWithin(run, key, from, i) == 0
  {
    hide Step, Evicts, RoomForNewKeys;
    if i > 0 {
      NoEvictionsWithRoom(run, key, from, i - 1);
      RoomKeepsLiveWindows(run, key, i - 1);
    }
  }

  /** With room for every new key, every key is allowed fewer than two limits of
      requests in any interval of one window length. */
  lemma AllowedWithRoom(run: Run, key: string, from: int)
    requires run.Valid() && RoomForNewKeys(run.policy, run.requests)
    requires 0 < run.policy.limit < U32_MAX
    requires forall j :: 0 <= j < |run.requests| ==> run.requests[j].now < I64_MAX
    ensures AllowedWithin(run, key, from, |run.requests|) < 2 * run.policy.limit
  {
    hide Step, AllowedWithin, EvictionsWithin, RoomForNewKeys;
    AllowedIsBounded(run, key, from, |run.requests|);
    NoEvictionsWithRoom(run, key, from, |run.requests|);
    MoreEvictions(run.policy.limit, 0);
  }
}

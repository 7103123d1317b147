/** What the numbers in an answer of the limiter promise to the client, over runs. */
module RateAnswers {
  import opened Common
  import opened RateLimit

  /** The requests of the key from index i up to j. */
  ghost function RequestsBetween(run: Run, key: string, i: nat, j: nat): nat
    requires run.Valid() && i <= j <= |run.requests|
  {
    if i == j then 0 else RequestsBetween(run, key, i, j - 1) + if run.requests[j - 1].key == key then 1 else 0
  }

  /** The window of the key is in the map after every request from index i up to j. */
  ghost predicate Kept(run: Run, key: string, i: nat, j: nat)
    requires run.Valid() && i <= j <= |run.requests|
  {
    forall m :: i < m <= j ==> key in run.states[m]
  }

  /** The end of the window that request i counted in. */
  ghost function EndOf(run: Run, i: nat): int
    requires run.Valid() && i < |run.requests|
  {
    StepAt(run, i);
    run.states[i + 1][run.requests[i].key].resetAt
  }

  lemma StepAt(run: Run, i: nat)
    requires run.Valid() && i < |run.requests|
    ensures var r := run.requests[i];
      && r.key in run.states[i + 1]
      && run.states[i + 1][r.key] == HitWindow(run.states[i], r.key, r.now, run.policy)
      && run.decisions[i] == DecisionOf(run.states[i + 1][r.key], r.now, run.policy)
      && (forall k :: k in run.states[i + 1] && k != r.key ==> k in run.states[i] && run.states[i + 1][k] == run.states[i][k])
  {
    hide Step;
    assert Step(run.states[i], run.requests[i], run.policy, run.states[i + 1], run.decisions[i]);
    StepKeepsWindows(run.states[i], run.requests[i], run.policy, run.states[i + 1], run.decisions[i]);
  }

  lemma TimesAscend(run: Run, i: nat, j: nat)
    requires run.Valid() && i <= j < |run.requests|
    ensures run.requests[i].now <= run.requests[j].now
    decreases j
  {
    hide Step;
    if i < j {
      TimesAscend(run, i, j - 1);
    }
  }

  function AtMostMax(hits: nat): nat {
    if hits > U32_MAX then U32_MAX else hits
  }

  /** While the window lives it counts the requests of its key, and keeps its end. */
  lemma {:induction false} WindowCounts(run: Run, i: nat, j: nat)
    requires run.Valid() && i < j <= |run.requests| && Kept(run, run.requests[i].key, i, j)
    requires j - 1 > i ==> run.requests[j - 1].now < EndOf(run, i)
    requires run.states[i + 1][run.requests[i].key].hits <= U32_MAX
    ensures var key := run.requests[i].key;
      && run.states[j][key].resetAt == EndOf(run, i)
      && run.states[j][key].hits == AtMostMax(run.states[i + 1][key].hits + RequestsBetween(run, key, i + 1, j))
    decreases j
  {
    hide Run.Valid, DecisionOf;
    StepAt(run, j - 1);
    if j - 1 > i {
      if j - 2 > i {
        TimesAscend(run, j - 2, j - 1);
      }
      WindowCounts(run, i, j - 1);
    }
  }

  lemma {:induction false} HitsFit(run: Run, key: string, i: nat)
    requires run.Valid() && i <= |run.requests|
    ensures key in run.states[i] ==> run.states[i][key].hits <= U32_MAX
  {
    if i > 0 {
      HitsFit(run, key, i - 1);
      StepAt(run, i - 1);
      hide Run.Valid, Step, DecisionOf;
    }
  }

  /** The requests counted are those of the key at the indices in between, at or after
      the instant. */
  lemma {:induction false} RequestsAreCounted(run: Run, key: string, since: int, i: nat)
    requires run.Valid() && i <= |run.requests|
    ensures RequestsSince(run, key, since, i)
         == |set j: nat | j < i && run.requests[j].key == key && run.requests[j].now >= since|
  {
    hide Step;
    if i > 0 {
      RequestsAreCounted(run, key, since, i - 1);
      CountedStep(run.requests, key, since, i);
    }
  }

  lemma CountedStep(requests: seq<Request>, key: string, since: int, i: nat)
    requires 0 < i <= |requests|
    ensures |set j: nat | j < i && requests[j].key == key && requests[j].now >= since|
         == |set j: nat | j < i - 1 && requests[j].key == key && requests[j].now >= since|
          + if requests[i - 1].key == key && requests[i - 1].now >= since then 1 else 0
  {
    var before := set j: nat | j < i - 1 && requests[j].key == key && requests[j].now >= since;
    var up := set j: nat | j < i && requests[j].key == key && requests[j].now >= since;
    assert up == before + if requests[i - 1].key == key && requests[i - 1].now >= since then {i - 1} else {};
  }

  lemma {:induction false} RequestsAreBetween(run: Run, key: string, i: nat, j: nat)
    requires run.Valid() && i <= j <= |run.requests|
    ensures RequestsBetween(run, key, i, j) == |set k: nat | i <= k < j && run.requests[k].key == key|
    decreases j
  {
    if i < j {
      RequestsAreBetween(run, key, i, j - 1);
      BetweenStep(run.requests, key, i, j);
    }
  }

  lemma BetweenStep(requests: seq<Request>, key: string, i: nat, j: nat)
    requires i < j <= |requests|
    ensures |set k: nat | i <= k < j && requests[k].key == key|
         == |set k: nat | i <= k < j - 1 && requests[k].key == key| + if requests[j - 1].key == key then 1 else 0
  {
    var before := set k: nat | i <= k < j - 1 && requests[k].key == key;
    var up := set k: nat | i <= k < j && requests[k].key == key;
    assert up == before + if requests[j - 1].key == key then {j - 1} else {};
  }

  /** A map of fewer than 10 000 windows drops none, ended or not. */
  lemma RoomIsLeft(w: Windows, key: string, now: int, after: Windows)
    requires MakesRoom(w, key, now, after)
    ensures |w| < 10_000 ==> after == w
  {
  }

  /** The answer to an allowed request says exactly how many more requests of its key
      the window allows: the one after them is denied, as long as the window neither
      ends nor is dropped. A denied request leaves nothing until then. */
  lemma RemainingIsExact(run: Run, i: nat, j: nat)
    requires run.Valid() && i < j < |run.requests| && run.requests[j].key == run.requests[i].key
    requires Kept(run, run.requests[i].key, i, j) && run.requests[j].now < EndOf(run, i)
    requires run.policy.limit < 4_294_967_295
    ensures var between := RequestsBetween(run, run.requests[i].key, i + 1, j);
      && (run.decisions[i].allowed ==> (run.decisions[j].allowed <==> between < run.decisions[i].remaining))
      && (run.decisions[j].allowed ==> run.decisions[j].remaining == run.decisions[i].remaining - between - 1)
      && (!run.decisions[i].allowed ==> run.decisions[i].remaining == 0 && !run.decisions[j].allowed)
  {
    var key := run.requests[i].key;
    HitsFit(run, key, i + 1);
    StepAt(run, i);
    StepAt(run, j);
    if j - 1 > i {
      TimesAscend(run, j - 1, j);
    }
    WindowCounts(run, i, j);
    hide Run.Valid, Step;
  }

  /** The other numbers of an answer: the limit, and the whole seconds of a window. */
  lemma PolicyIsReported(run: Run, i: nat)
    requires run.Valid() && i < |run.requests|
    ensures run.decisions[i].limit == run.policy.limit
    ensures (run.decisions[i].windowSeconds - 1) * 1000 < run.policy.windowMs <= run.decisions[i].windowSeconds * 1000
  {
    StepAt(run, i);
  }

  /** A limit of 0 denies every request. */
  lemma LimitZeroDenies(run: Run, i: nat)
    requires run.Valid() && i < |run.requests| && run.policy.limit == 0
    ensures !run.decisions[i].allowed && run.decisions[i].remaining == 0
  {
    StepAt(run, i);
    hide Run.Valid, Step;
  }

  /** The reset is the fewest whole seconds that reach the end of the window. */
  lemma ResetIsLeast(run: Run, i: nat)
    requires run.Valid() && i < |run.requests| && 0 <= run.policy.windowMs <= I64_MAX
    ensures var s, now := run.decisions[i].resetSeconds, run.requests[i].now;
      now + (s - 1) * 1000 < EndOf(run, i) <= now + s * 1000
  {
    StepAt(run, i);
    WindowBegan(run, run.requests[i].key, i + 1);
    var left := EndOf(run, i) - run.requests[i].now;
    assert run.requests[i].now <= I64_MAX && run.requests[i].now >= I64_MIN;
    hide Run.Valid, Step;
    assert 0 <= left <= run.policy.windowMs;
    assert run.decisions[i].resetSeconds == CeilSeconds(left);
  }

  lemma {:induction false} WindowUntouched(run: Run, i: nat, j: nat)
    requires run.Valid() && i < j <= |run.requests| && RequestsBetween(run, run.requests[i].key, i + 1, j) == 0
    ensures var key := run.requests[i].key;
      key in run.states[j] ==> key in run.states[i + 1] && run.states[j][key] == run.states[i + 1][key]
    decreases j
  {
    hide Step, HitWindow, DecisionOf;
    if j > i + 1 {
      WindowUntouched(run, i, j - 1);
      StepAt(run, j - 1);
    }
  }

  /** The next request of the key that waits for the reported seconds starts a fresh
      window, and is allowed unless the limit is 0. */
  lemma WaitingResets(run: Run, i: nat, j: nat)
    requires run.Valid() && i < j < |run.requests| && run.requests[j].key == run.requests[i].key
    requires RequestsBetween(run, run.requests[i].key, i + 1, j) == 0
    requires 0 <= run.policy.windowMs <= I64_MAX
    requires run.requests[j].now >= run.requests[i].now + run.decisions[i].resetSeconds * 1000
    ensures run.decisions[j].allowed <==> run.policy.limit > 0
    ensures run.decisions[j].remaining == if run.policy.limit > 0 then run.policy.limit - 1 else 0
    ensures EndOf(run, j) == if run.requests[j].now + run.policy.windowMs <= 9_223_372_036_854_775_807
                             then run.requests[j].now + run.policy.windowMs else 9_223_372_036_854_775_807
  {
    ResetIsLeast(run, i);
    WindowUntouched(run, i, j);
    StepAt(run, j);
    assert run.requests[j].now >= I64_MIN;
    hide Run.Valid, Step;
  }

  /** With a second less the request still counts in the old window. */
  lemma EarlierDoesNot(run: Run, i: nat, j: nat)
    requires run.Valid() && i < j < |run.requests| && run.requests[j].key == run.requests[i].key
    requires Kept(run, run.requests[i].key, i, j) && 0 <= run.policy.windowMs <= I64_MAX
    requires run.requests[j].now <= run.requests[i].now + (run.decisions[i].resetSeconds - 1) * 1000
    ensures run.requests[j].now < EndOf(run, i) == EndOf(run, j)
  {
    var key := run.requests[i].key;
    ResetIsLeast(run, i);
    HitsFit(run, key, i + 1);
    StepAt(run, i);
    if j - 1 > i {
      TimesAscend(run, j - 1, j);
    }
    WindowCounts(run, i, j);
    StepAt(run, j);
    hide Run.Valid, Step, DecisionOf;
  }
}

/** Which runs of the forecast cache keep the build instants in order, and which
    give a result of one database version. */
module CacheOrder {
  import opened Common
  import opened ForecastCache

  // --- A refresh from its clock reading to its publication ------------------------------------

  /** The step after which the task is gone. */
  predicate Ends(step: Step, t: nat) {
    step == Fail(t) || step == Cancel(t) || step == Publish(t)
  }

  ghost predicate Unended(run: Run, t: nat, i: int, j: int) {
    forall k :: 0 <= i < k < j <= |run.steps| ==> !Ends(run.steps[k], t)
  }

  /** One refresh: step s starts it with a clock reading, step a takes the lock,
      step p publishes its result. */
  ghost predicate Refresh(run: Run, s: nat, a: nat, p: nat) {
    && s < a < p < |run.steps|
    && run.steps[s].Start? && run.steps[a] == Acquire(run.steps[s].task) && run.steps[p] == Publish(run.steps[s].task)
    && Unended(run, run.steps[s].task, s, p)
  }

  lemma StepOf(run: Run, k: nat)
    requires run.Valid() && k < |run.steps|
    ensures Enabled(run.states[k], run.steps[k]) && run.states[k + 1] == After(run.db, run.states[k], run.steps[k])
  {
  }

  lemma {:induction false} ClockCountsSteps(run: Run, k: nat)
    requires run.Valid() && k < |run.states|
    ensures run.states[k].clock == k
  {
    if k > 0 {
      ClockCountsSteps(run, k - 1);
      StepOf(run, k - 1);
      hide Enabled, Effect;
    }
  }

  /** What one step does to one task. */
  lemma TaskStep(db: Database, s: State, step: Step, t: nat)
    requires Enabled(s, step)
    ensures var s' := After(db, s, step);
      && (t in s'.tasks && t !in s.tasks ==> step.Start? && step.task == t && s'.tasks[t] == Waiting(step.now))
      && (t in s.tasks && Ends(step, t) ==> t !in s'.tasks)
      && (t in s.tasks && !Ends(step, t) ==>
            && t in s'.tasks && s'.tasks[t].now == s.tasks[t].now
            && (s.tasks[t].Building? ==> s'.tasks[t].Building?)
            && (s'.tasks[t].Building? && s.tasks[t].Waiting? ==> step == Acquire(t)))
      && (step.Start? ==> step.task !in s.tasks)
      && (step.Start? && step.task == t ==> t in s'.tasks && s'.tasks[t] == Waiting(step.now))
  {
    hide MayRead, IsStale, Whole;
  }

  /** A task stays, with its clock reading, until a step ends it. */
  lemma {:induction false} TaskStays(run: Run, t: nat, i: nat, j: nat)
    requires run.Valid() && i <= j < |run.states| && t in run.states[i].tasks
    requires forall k :: i <= k < j ==> !Ends(run.steps[k], t)
    ensures t in run.states[j].tasks && run.states[j].tasks[t].now == run.states[i].tasks[t].now
    ensures run.states[i].tasks[t].Building? ==> run.states[j].tasks[t].Building?
  {
    if i < j {
      TaskStays(run, t, i, j - 1);
      StepOf(run, j - 1);
      hide Enabled, After;
      TaskStep(run.db, run.states[j - 1], run.steps[j - 1], t);
    }
  }

  /** A task was started with its clock reading. */
  lemma {:induction false} TaskWasStarted(run: Run, t: nat, k: nat) returns (s: nat)
    requires run.Valid() && k < |run.states| && t in run.states[k].tasks
    ensures s < k && run.steps[s] == Start(t, run.states[k].tasks[t].now) && Unended(run, t, s, k)
  {
    StepOf(run, k - 1);
    hide Enabled, After;
    TaskStep(run.db, run.states[k - 1], run.steps[k - 1], t);
    if t in run.states[k - 1].tasks {
      s := TaskWasStarted(run, t, k - 1);
    } else {
      s := k - 1;
    }
  }

  lemma BuildingStep(db: Database, s: State, step: Step, t: nat)
    requires Enabled(s, step) && IsBuilding(After(db, s, step), t)
    ensures t in s.tasks && s.tasks[t].now == After(db, s, step).tasks[t].now
    ensures step == Acquire(t) || (IsBuilding(s, t) && !Ends(step, t))
  {
    hide Enabled, After;
    TaskStep(db, s, step, t);
  }

  /** A building task was started, and took the lock afterwards. */
  lemma {:induction false} TaskTookTheLock(run: Run, t: nat, k: nat) returns (s: nat, a: nat)
    requires run.Valid() && k < |run.states| && IsBuilding(run.states[k], t)
    ensures s < a < k && run.steps[s] == Start(t, run.states[k].tasks[t].now) && run.steps[a] == Acquire(t)
    ensures Unended(run, t, s, k)
  {
    hide Enabled, After;
    StepOf(run, k - 1);
    BuildingStep(run.db, run.states[k - 1], run.steps[k - 1], t);
    hide Run.Valid;
    if run.steps[k - 1] == Acquire(t) {
      s := TaskWasStarted(run, t, k - 1);
      a := k - 1;
    } else {
      s, a := TaskTookTheLock(run, t, k - 1);
    }
  }

  /** What a publication adds. */
  lemma PublicationStep(run: Run, p: nat)
    requires run.Valid() && p < |run.steps| && run.steps[p].Publish?
    ensures var s, t := run.states[p], run.steps[p].task;
      && IsBuilding(s, t)
      && run.states[p + 1].published
         == s.published + [Publication(Snapshot(|s.published|, s.tasks[t].seen, s.tasks[t].now), p, s.version)]
  {
    StepOf(run, p);
    ClockCountsSteps(run, p);
    hide Whole;
  }

  /** The step that published a result. */
  lemma {:induction false} WasPublished(run: Run, k: nat, i: nat) returns (p: nat)
    requires run.Valid() && k < |run.states| && i < |run.states[k].published|
    ensures p < k && run.steps[p].Publish? && IsBuilding(run.states[p], run.steps[p].task)
    ensures var task := run.states[p].tasks[run.steps[p].task];
      run.states[k].published[i] == Publication(Snapshot(i, task.seen, task.now), p, run.states[p].version)
  {
    hide Run.Valid;
    InitiallyNothing(run);
    if run.steps[k - 1].Publish? && i == |run.states[k - 1].published| {
      PublicationStep(run, k - 1);
      p := k - 1;
    } else {
      if run.steps[k - 1].Publish? {
        PublicationStep(run, k - 1);
      } else {
        OnlySwapsChangeTheResult(run, k - 1, k);
      }
      p := WasPublished(run, k - 1, i);
    }
  }

  lemma InitiallyNothing(run: Run)
    requires run.Valid()
    ensures |run.states| == |run.steps| + 1 && run.states[0].published == []
  {
  }

  /** Every published result is that of one refresh. */
  lemma PublishedByRefresh(run: Run, i: nat) returns (s: nat, a: nat, p: nat)
    requires run.Valid() && i < |Last(run).published|
    ensures Refresh(run, s, a, p) && Last(run).published[i].at == p
    ensures Last(run).published[i].snapshot.builtAt == run.steps[s].now
  {
    p := WasPublished(run, |run.steps|, i);
    s, a := TaskTookTheLock(run, run.steps[p].task, p);
  }

  /** Every refresh that reaches its publication has a published result. */
  lemma RefreshIsPublished(run: Run, s: nat, a: nat, p: nat) returns (i: nat)
    requires run.Valid() && Refresh(run, s, a, p)
    ensures i < |Last(run).published| && Last(run).published[i].at == p
    ensures Last(run).published[i].snapshot.builtAt == run.steps[s].now
  {
    var t := run.steps[s].task;
    StepOf(run, s);
    TaskStep(run.db, run.states[s], run.steps[s], t);
    TaskStays(run, t, s + 1, p);
    PublicationStep(run, p);
    HistoryOnlyGrows(run, p + 1, |run.steps|);
    i := |run.states[p].published|;
  }

  lemma LockIsHeld(run: Run, s: nat, a: nat, p: nat, k: nat)
    requires run.Valid() && Refresh(run, s, a, p) && a < k <= p
    ensures run.states[k].lock == Some(run.steps[s].task)
  {
    var t := run.steps[s].task;
    StepOf(run, a);
    assert IsBuilding(run.states[a + 1], t) by {
      hide MayRead, IsStale, Whole;
    }
    TaskStays(run, t, a + 1, k);
    RunKeepsInv(run, k);
    hide Run.Valid, BuildInv, HistoryInv, ReaderInv, WarningInv;
    assert IsBuilding(run.states[k], t);
  }

  /** The lock keeps refreshes apart: the next one takes it after the publication. */
  lemma RefreshesDoNotOverlap(run: Run, s: nat, a: nat, p: nat, s': nat, a': nat, p': nat)
    requires run.Valid() && Refresh(run, s, a, p) && Refresh(run, s', a', p')
    requires a < a'
    ensures p < a'
  {
    if a' < p {
      StepOf(run, a');
      LockIsHeld(run, s, a, p, a');
    }
  }

  lemma PublishedInOrder(run: Run, i: nat, j: nat)
    requires run.Valid() && i < j < |Last(run).published|
    ensures Last(run).published[i].at < Last(run).published[j].at
  {
    hide Whole, Staged, ReadsWithin;
    RunKeepsInv(run, |run.steps|);
    var published := Last(run).published;
    PublicationsAscend(published, i, j);
    assert IsPublication(published, j);
  }

  /** The build instants of the published results never go back. */
  ghost predicate BuildsInOrder(run: Run)
    requires run.Valid()
  {
    forall i, j :: 0 <= i < j < |Last(run).published| ==>
      Last(run).published[i].snapshot.builtAt <= Last(run).published[j].snapshot.builtAt
  }

  /** The refreshes that publish take the lock in the order of their clock readings. */
  ghost predicate LockedInOrder(run: Run) {
    forall s: nat, a: nat, p: nat, s': nat, a': nat, p': nat ::
      Refresh(run, s, a, p) && Refresh(run, s', a', p') && a < a' ==> run.steps[s].now <= run.steps[s'].now
  }

  /** In every run, the build instants never go back exactly when the callers'
      clock readings are in the order in which their refreshes get the lock. */
  lemma BuildsInOrderExactly(run: Run)
    requires run.Valid()
    ensures BuildsInOrder(run) <==> LockedInOrder(run)
  {
    hide Run.Valid;
    if BuildsInOrder(run) {
      forall s: nat, a: nat, p: nat, s': nat, a': nat, p': nat | Refresh(run, s, a, p) && Refresh(run, s', a', p') && a < a'
        ensures run.steps[s].now <= run.steps[s'].now
      {
        OrderOfRefreshes(run, s, a, p, s', a', p');
      }
    }
    if LockedInOrder(run) {
      forall i, j | 0 <= i < j < |Last(run).published|
        ensures Last(run).published[i].snapshot.builtAt <= Last(run).published[j].snapshot.builtAt
      {
        OrderOfResults(run, i, j);
      }
    }
  }

  lemma OrderOfRefreshes(run: Run, s: nat, a: nat, p: nat, s': nat, a': nat, p': nat)
    requires run.Valid() && BuildsInOrder(run)
    requires Refresh(run, s, a, p) && Refresh(run, s', a', p') && a < a'
    ensures run.steps[s].now <= run.steps[s'].now
  {
    RefreshesDoNotOverlap(run, s, a, p, s', a', p');
    var i := RefreshIsPublished(run, s, a, p);
    var j := RefreshIsPublished(run, s', a', p');
    hide Run.Valid;
    if j < i {
      PublishedInOrder(run, j, i);
    }
  }

  lemma OrderOfResults(run: Run, i: nat, j: nat)
    requires run.Valid() && LockedInOrder(run) && i < j < |Last(run).published|
    ensures Last(run).published[i].snapshot.builtAt <= Last(run).published[j].snapshot.builtAt
  {
    hide Run.Valid;
    var s, a, p := PublishedByRefresh(run, i);
    var s', a', p' := PublishedByRefresh(run, j);
    PublishedInOrder(run, i, j);
    if a' < a {
      RefreshesDoNotOverlap(run, s', a', p', s, a, p);
    }
    assert a < a';
  }

  // --- The versions of a result -----------------------------------------------------------------------

  /** Every read saw the version of its instant. */
  ghost predicate Recorded(run: Run, k: nat, seen: Reads) {
    forall q: Query :: q in seen ==> seen[q].at < k <= |run.states| && seen[q].version == run.states[seen[q].at].version
  }

  lemma MoreRecorded(run: Run, s: State, s': State, t: nat)
    requires IsBuilding(s, t) && IsBuilding(s', t) && exists q :: ReadsNext(s, s', t, q)
    requires s.clock < |run.states| && run.states[s.clock] == s
    requires Recorded(run, s.clock, s.tasks[t].seen)
    ensures Recorded(run, s.clock + 1, s'.tasks[t].seen)
  {
    hide MayRead;
    var q :| ReadsNext(s, s', t, q);
  }

  lemma {:induction false} ReadsAreRecorded(run: Run, t: nat, k: nat)
    requires run.Valid() && k < |run.states| && IsBuilding(run.states[k], t)
    ensures Recorded(run, k, run.states[k].tasks[t].seen)
  {
    hide Enabled, After, BuildInv, HistoryInv, ReaderInv, WarningInv, LockInv, ReadsNext, Recorded;
    StepOf(run, k - 1);
    RunKeepsInv(run, k - 1);
    ClockCountsSteps(run, k - 1);
    hide Run.Valid;
    var s, s' := run.states[k - 1], run.states[k];
    BuildingAfter(run.db, s, run.steps[k - 1], t);
    if IsBuilding(s, t) {
      ReadsAreRecorded(run, t, k - 1);
      if s'.tasks[t] == s.tasks[t] {
        LaterRecorded(run, k - 1, s.tasks[t].seen);
      } else if s'.tasks[t].seen == map[] {
        NothingRecorded(run, k);
      } else {
        MoreRecorded(run, s, s', t);
      }
    } else {
      NothingRecorded(run, k);
    }
  }

  lemma LaterRecorded(run: Run, k: nat, seen: Reads)
    requires Recorded(run, k, seen) && k < |run.states|
    ensures Recorded(run, k + 1, seen)
  {
  }

  lemma NothingRecorded(run: Run, k: nat)
    ensures Recorded(run, k, map[])
  {
  }

  /** The version is the number of writes: it stays exactly while nobody writes. */
  lemma {:induction false} VersionStays(run: Run, i: nat, j: nat)
    requires run.Valid() && i <= j < |run.states|
    ensures run.states[i].version <= run.states[j].version
    ensures run.states[i].version == run.states[j].version <==> forall n :: i <= n < j ==> !run.steps[n].Write?
  {
    if i < j {
      VersionStays(run, i, j - 1);
      StepOf(run, j - 1);
      hide MayRead, IsStale, Whole;
      assert run.states[j].version == run.states[j - 1].version + (if run.steps[j - 1].Write? then 1 else 0);
    }
  }

  ghost predicate OneVersion(seen: Reads) {
    forall p: Query, q: Query :: p in seen && q in seen ==> seen[p].version == seen[q].version
  }

  ghost predicate NoWriteBetweenReads(run: Run, seen: Reads) {
    forall p: Query, q: Query, n: nat :: p in seen && q in seen && seen[p].at <= n < seen[q].at && n < |run.steps| ==>
      !run.steps[n].Write?
  }

  /** In every run, a published result is one database snapshot exactly when no
      write falls between two of its reads. */
  lemma OneVersionExactly(run: Run, k: nat, i: nat)
    requires run.Valid() && k < |run.states| && i < |run.states[k].published|
    ensures var seen := run.states[k].published[i].snapshot.seen;
      OneVersion(seen) <==> NoWriteBetweenReads(run, seen)
  {
    var seen := run.states[k].published[i].snapshot.seen;
    var p := WasPublished(run, k, i);
    ReadsAreRecorded(run, run.steps[p].task, p);
    forall a: Query, b: Query | a in seen && b in seen && seen[a].at <= seen[b].at
      ensures seen[a].version == seen[b].version <==> forall n :: seen[a].at <= n < seen[b].at ==> !run.steps[n].Write?
    {
      VersionStays(run, seen[a].at, seen[b].at);
    }
  }
}

/** The shared forecast result as a state machine: refreshers that wait for one
    lock, read the database query by query, and publish; writers that change
    the database between any two steps; readers that take, hold and serve a
    published result. Every step is atomic and has its own instant. */
module ForecastCache {
  import opened Common

  const STALE_AFTER_MS: int := 2 * 60 * 60 * 1000

  // --- Reads ------------------------------------------------------------------------------------

  datatype Query =
    LatestDelivery | FiPrices | NeighborPrices
    | WindForecast | WindActual | ConsumptionForecast | ConsumptionActual
    | PricesFetched | WindIssued | ConsumptionIssued

  /** Queries of one stage run at the same time; a stage waits for the one before. */
  function Stage(q: Query): nat {
    match q
    case LatestDelivery => 0
    case FiPrices => 1
    case NeighborPrices => 2
    case WindForecast => 3
    case WindActual => 3
    case ConsumptionForecast => 3
    case ConsumptionActual => 3
    case PricesFetched => 4
    case WindIssued => 4
    case ConsumptionIssued => 4
  }

  /** The instant of a query, and the database version that it saw. */
  datatype Read = Read(at: nat, version: nat)

  type Reads = map<Query, Read>

  ghost predicate Whole(seen: Reads) {
    forall q: Query :: q in seen
  }

  ghost predicate MayRead(seen: Reads, q: Query) {
    q !in seen && forall p: Query :: Stage(p) < Stage(q) ==> p in seen
  }

  /** The first delivery, then the FI prices, then the neighbours; the four grid reads
      together, and then the three times. */
  lemma QueriesInTurn(seen: Reads)
    ensures MayRead(seen, LatestDelivery) <==> LatestDelivery !in seen
    ensures MayRead(seen, FiPrices) <==> FiPrices !in seen && LatestDelivery in seen
    ensures MayRead(seen, NeighborPrices) <==> NeighborPrices !in seen && LatestDelivery in seen && FiPrices in seen
    ensures forall q <- GRID_READS :: MayRead(seen, q) <==>
      q !in seen && LatestDelivery in seen && FiPrices in seen && NeighborPrices in seen
    ensures forall q <- LAST_READS :: MayRead(seen, q) <==>
      q !in seen && LatestDelivery in seen && FiPrices in seen && NeighborPrices in seen && GRID_READS <= seen.Keys
  {
  }

  const GRID_READS := {WindForecast, WindActual, ConsumptionForecast, ConsumptionActual}
  const LAST_READS := {PricesFetched, WindIssued, ConsumptionIssued}

  // --- State ---------------------------------------------------------------------------------------

  datatype Task = Waiting(now: int) | Building(now: int, seen: Reads)

  datatype Snapshot = Snapshot(id: nat, seen: Reads, builtAt: int)

  /** A published result, with the instant and the database version of its swap. */
  datatype Publication = Publication(snapshot: Snapshot, at: nat, version: nat)

  datatype State = State(
    clock: nat, version: nat, lock: Option<nat>, tasks: map<nat, Task>,
    current: Option<Snapshot>, published: seq<Publication>,
    held: map<nat, Snapshot>, flags: set<nat>, warnings: seq<nat>)

  const INITIAL := State(0, 0, None, map[], None, [], map[], {}, [])

  /** The newest issuance of the two grid datasets at a database version. */
  datatype Database = Database(wind: nat -> Option<int>, consumption: nat -> Option<int>)

  function Later(a: Option<int>, b: Option<int>): Option<int> {
    if a.None? then b else if b.None? then a else if a.value >= b.value then a else b
  }

  function GridIssuedAt(db: Database, s: Snapshot): Option<int> {
    if WindIssued in s.seen && ConsumptionIssued in s.seen then
      Later(db.wind(s.seen[WindIssued].version), db.consumption(s.seen[ConsumptionIssued].version))
    else None
  }

  predicate IsStale(db: Database, s: Snapshot, now: int) {
    var issued := GridIssuedAt(db, s);
    issued.Some? && now - issued.value > STALE_AFTER_MS
  }

  // --- Steps ---------------------------------------------------------------------------------------

  datatype Step =
    | Write
    | Start(task: nat, now: int)
    | Acquire(task: nat)
    | RunQuery(task: nat, query: Query)
    | Fail(task: nat)
    | Cancel(task: nat)
    | Publish(task: nat)
    | Take(reader: nat)
    | Release(reader: nat)
    | Serve(reader: nat, now: int)

  predicate IsBuilding(s: State, t: nat) {
    t in s.tasks && s.tasks[t].Building?
  }

  ghost predicate Enabled(s: State, step: Step) {
    match step
    case Write => true
    case Start(t, _) => t !in s.tasks
    case Acquire(t) => t in s.tasks && s.tasks[t].Waiting? && s.lock.None?
    case RunQuery(t, q) => s.lock == Some(t) && IsBuilding(s, t) && MayRead(s.tasks[t].seen, q)
    case Fail(t) => s.lock == Some(t) && IsBuilding(s, t)
    case Cancel(t) => t in s.tasks
    case Publish(t) => s.lock == Some(t) && IsBuilding(s, t) && Whole(s.tasks[t].seen)
    case Take(_) => s.current.Some?
    case Release(r) => r in s.held
    case Serve(r, _) => r in s.held
  }

  ghost function Effect(db: Database, s: State, step: Step): State
    requires Enabled(s, step)
  {
    match step
    case Write => s.(version := s.version + 1)
    case Start(t, now) => s.(tasks := s.tasks[t := Waiting(now)])
    case Acquire(t) => s.(lock := Some(t), tasks := s.tasks[t := Building(s.tasks[t].now, map[])])
    case RunQuery(t, q) =>
      var task := s.tasks[t];
      s.(tasks := s.tasks[t := Building(task.now, task.seen[q := Read(s.clock, s.version)])])
    case Fail(t) => s.(lock := None, tasks := s.tasks - {t})
    case Cancel(t) => s.(lock := if s.lock == Some(t) then None else s.lock, tasks := s.tasks - {t})
    case Publish(t) =>
      var snapshot := Snapshot(|s.published|, s.tasks[t].seen, s.tasks[t].now);
      s.(lock := None, tasks := s.tasks - {t}, current := Some(snapshot),
         published := s.published + [Publication(snapshot, s.clock, s.version)])
    case Take(r) => s.(held := s.held[r := s.current.value])
    case Release(r) => s.(held := s.held - {r})
    case Serve(r, now) =>
      var snapshot := s.held[r];
      if IsStale(db, snapshot, now) && snapshot.id !in s.flags then
        s.(flags := s.flags + {snapshot.id}, warnings := s.warnings + [snapshot.id])
      else s
  }

  ghost function After(db: Database, s: State, step: Step): State
    requires Enabled(s, step)
  {
    var e := Effect(db, s, step);
    e.(clock := s.clock + 1)
  }

  // --- Runs ------------------------------------------------------------------------------------------

  datatype Run = Run(db: Database, states: seq<State>, steps: seq<Step>) {
    ghost predicate Valid() {
      && |states| == |steps| + 1 && states[0] == INITIAL
      && forall i :: 0 <= i < |steps| ==> Enabled(states[i], steps[i]) && states[i + 1] == After(db, states[i], steps[i])
    }
  }

  // --- Invariants ---------------------------------------------------------------------------------------

  /** The task that holds the lock is the one that builds. */
  ghost predicate LockInv(s: State) {
    forall t: nat :: IsBuilding(s, t) <==> s.lock == Some(t)
  }

  /** Reads that happened in (after, before), and saw versions in between. */
  ghost predicate ReadsWithin(seen: Reads, after: int, oldest: nat, before: nat, newest: nat) {
    forall q: Query :: q in seen ==> after < seen[q].at < before && oldest <= seen[q].version <= newest
  }

  /** Every read of a stage is after every read of an earlier stage. */
  ghost predicate Staged(seen: Reads) {
    forall p: Query, q: Query :: q in seen && Stage(p) < Stage(q) ==>
      p in seen && seen[p].at < seen[q].at && seen[p].version <= seen[q].version
  }

  function LastAt(published: seq<Publication>): int {
    if published == [] then -1 else published[|published| - 1].at
  }

  function LastVersion(published: seq<Publication>): nat {
    if published == [] then 0 else published[|published| - 1].version
  }

  ghost predicate BuildInv(s: State) {
    && LastAt(s.published) < s.clock && LastVersion(s.published) <= s.version
    && forall t: nat :: IsBuilding(s, t) ==>
         Staged(s.tasks[t].seen)
         && ReadsWithin(s.tasks[t].seen, LastAt(s.published), LastVersion(s.published), s.clock, s.version)
  }

  ghost predicate IsPublication(published: seq<Publication>, i: nat)
    requires i < |published|
  {
    var p := published[i];
    && p.snapshot.id == i && Whole(p.snapshot.seen) && Staged(p.snapshot.seen)
    && ReadsWithin(p.snapshot.seen, LastAt(published[..i]), LastVersion(published[..i]), p.at, p.version)
    && LastAt(published[..i]) < p.at && LastVersion(published[..i]) <= p.version
  }

  ghost predicate HistoryInv(s: State) {
    && (forall i: nat :: i < |s.published| ==> IsPublication(s.published, i))
    && s.current == if s.published == [] then None else Some(s.published[|s.published| - 1].snapshot)
  }

  ghost predicate IsPublished(s: State, snapshot: Snapshot) {
    snapshot.id < |s.published| && s.published[snapshot.id].snapshot == snapshot
  }

  ghost predicate ReaderInv(s: State) {
    forall r: nat :: r in s.held ==> IsPublished(s, s.held[r])
  }

  ghost predicate WarningInv(s: State) {
    && (forall i: nat :: i < |s.warnings| ==> s.warnings[i] in s.flags)
    && (forall x :: x in s.flags ==> x in s.warnings)
    && (forall i: nat, j: nat :: i < j < |s.warnings| ==> s.warnings[i] != s.warnings[j])
  }

  ghost predicate Inv(s: State) {
    LockInv(s) && BuildInv(s) && HistoryInv(s) && ReaderInv(s) && WarningInv(s)
  }

  lemma StepKeepsLock(db: Database, s: State, step: Step)
    requires Enabled(s, step) && LockInv(s)
    ensures LockInv(After(db, s, step))
  {
    hide Whole, MayRead;
  }

  ghost predicate ReadsNext(s: State, s': State, t: nat, q: Query)
    requires IsBuilding(s, t) && IsBuilding(s', t)
  {
    MayRead(s.tasks[t].seen, q) && s'.tasks[t].seen == s.tasks[t].seen[q := Read(s.clock, s.version)]
  }

  /** A task that builds after a step began in it, ran one query in it, or was
      left alone by it. */
  lemma BuildingAfter(db: Database, s: State, step: Step, t: nat)
    requires Enabled(s, step) && LockInv(s)
    ensures var s' := After(db, s, step);
      IsBuilding(s', t) ==>
        && s'.published == s.published
        && (|| s'.tasks[t].seen == map[]
            || (IsBuilding(s, t) && s'.tasks[t] == s.tasks[t])
            || (IsBuilding(s, t) && exists q :: ReadsNext(s, s', t, q)))
  {
    hide MayRead, IsStale;
    assert IsBuilding(s, t) <==> s.lock == Some(t);
    if step.RunQuery? && step.task == t {
      assert ReadsNext(s, After(db, s, step), t, step.query);
    }
  }

  lemma StepMovesTime(db: Database, s: State, step: Step)
    requires Enabled(s, step)
    ensures var s' := After(db, s, step);
      && s'.clock == s.clock + 1 && s'.version >= s.version
      && (s'.published == s.published || (LastAt(s'.published) == s.clock && LastVersion(s'.published) == s.version))
  {
    hide MayRead, IsStale, Whole;
  }

  lemma StepKeepsBuild(db: Database, s: State, step: Step)
    requires Enabled(s, step) && LockInv(s) && BuildInv(s)
    ensures BuildInv(After(db, s, step))
  {
    hide Enabled, After, LockInv;
    var s' := After(db, s, step);
    StepMovesTime(db, s, step);
    forall t: nat | IsBuilding(s', t)
      ensures Staged(s'.tasks[t].seen)
      ensures ReadsWithin(s'.tasks[t].seen, LastAt(s'.published), LastVersion(s'.published), s'.clock, s'.version)
    {
      BuildingAfter(db, s, step, t);
    }
  }

  lemma StepKeepsHistory(db: Database, s: State, step: Step)
    requires Enabled(s, step) && BuildInv(s) && HistoryInv(s)
    ensures HistoryInv(After(db, s, step))
    ensures s.published <= After(db, s, step).published
  {
    hide Whole, MayRead, IsStale, Staged, ReadsWithin;
    var s' := After(db, s, step);
    if step.Publish? {
      assert s'.published[..|s.published|] == s.published;
      forall i: nat | i < |s.published|
        ensures IsPublication(s'.published, i)
      {
        assert IsPublication(s.published, i);
        assert s'.published[..i] == s.published[..i];
      }
      assert IsBuilding(s, step.task);
      assert IsPublication(s'.published, |s.published|);
    }
  }

  lemma StepKeepsReaders(db: Database, s: State, step: Step)
    requires Enabled(s, step) && HistoryInv(s) && ReaderInv(s)
    ensures ReaderInv(After(db, s, step))
  {
    hide Whole, MayRead, IsStale, Staged, ReadsWithin;
    if step.Take? {
      assert IsPublication(s.published, |s.published| - 1);
    }
  }

  lemma StepKeepsWarnings(db: Database, s: State, step: Step)
    requires Enabled(s, step) && WarningInv(s)
    ensures WarningInv(After(db, s, step))
  {
    hide Whole, MayRead, IsStale;
  }

  lemma {:induction false} RunKeepsInv(run: Run, i: nat)
    requires run.Valid() && i < |run.states|
    ensures Inv(run.states[i])
  {
    hide Enabled, After, LockInv, BuildInv, HistoryInv, ReaderInv, WarningInv;
    if i == 0 {
      InitialInv();
    } else {
      RunKeepsInv(run, i - 1);
      var s, step := run.states[i - 1], run.steps[i - 1];
      assert Enabled(s, step) && run.states[i] == After(run.db, s, step);
      StepKeepsLock(run.db, s, step);
      StepKeepsBuild(run.db, s, step);
      StepKeepsHistory(run.db, s, step);
      StepKeepsReaders(run.db, s, step);
      StepKeepsWarnings(run.db, s, step);
    }
  }

  lemma InitialInv()
    ensures Inv(INITIAL)
  {
  }

  // --- Order of the published results ----------------------------------------------------------------

  lemma {:induction false} PublicationsAscend(published: seq<Publication>, i: nat, j: nat)
    requires i < j <= |published|
    requires forall k: nat :: k < |published| ==> IsPublication(published, k)
    ensures published[i].at <= LastAt(published[..j]) && published[i].version <= LastVersion(published[..j])
  {
    hide Whole, Staged, ReadsWithin;
    assert published[..j][j - 1] == published[j - 1];
    if i < j - 1 {
      PublicationsAscend(published, i, j - 1);
      assert IsPublication(published, j - 1);
    }
  }

  /** Every read of a later result happens after the earlier result is in place,
      and every read of the earlier result happened before. */
  lemma LaterReadsFollowEarlierSwap(run: Run, k: nat, i: nat, j: nat, p: Query, q: Query)
    requires run.Valid() && k < |run.states|
    requires i < j < |run.states[k].published|
    ensures var earlier, later := run.states[k].published[i], run.states[k].published[j];
      && p in earlier.snapshot.seen && q in later.snapshot.seen
      && earlier.snapshot.seen[p].at < earlier.at < later.snapshot.seen[q].at < later.at
      && earlier.snapshot.seen[p].version <= earlier.version <= later.snapshot.seen[q].version
  {
    RunKeepsInv(run, k);
    var published := run.states[k].published;
    assert IsPublication(published, i) && IsPublication(published, j);
    PublicationsAscend(published, i, j);
  }

  ghost predicate AtMost(a: Option<int>, b: Option<int>) {
    a.Some? ==> b.Some? && a.value <= b.value
  }

  /** The stored issuances only grow. */
  ghost predicate IssuesGrow(db: Database) {
    forall v: nat, w: nat :: v <= w ==> AtMost(db.wind(v), db.wind(w)) && AtMost(db.consumption(v), db.consumption(w))
  }

  /** The grid issuance of the served result never goes back. */
  lemma IssuesNeverGoBack(run: Run, k: nat, i: nat, j: nat)
    requires run.Valid() && k < |run.states| && IssuesGrow(run.db)
    requires i < j < |run.states[k].published|
    ensures AtMost(GridIssuedAt(run.db, run.states[k].published[i].snapshot),
                   GridIssuedAt(run.db, run.states[k].published[j].snapshot))
  {
    var a, b := run.states[k].published[i].snapshot, run.states[k].published[j].snapshot;
    LaterReadsFollowEarlierSwap(run, k, i, j, WindIssued, WindIssued);
    LaterReadsFollowEarlierSwap(run, k, i, j, ConsumptionIssued, ConsumptionIssued);
    assert AtMost(run.db.wind(a.seen[WindIssued].version), run.db.wind(b.seen[WindIssued].version));
    assert AtMost(run.db.consumption(a.seen[ConsumptionIssued].version), run.db.consumption(b.seen[ConsumptionIssued].version));
  }

  // --- What readers see ---------------------------------------------------------------------------------

  lemma {:induction false} HistoryOnlyGrows(run: Run, i: nat, j: nat)
    requires run.Valid() && i <= j < |run.states|
    ensures run.states[i].published <= run.states[j].published
  {
    hide Enabled, After;
    if i < j {
      HistoryOnlyGrows(run, i, j - 1);
      RunKeepsInv(run, j - 1);
      assert Enabled(run.states[j - 1], run.steps[j - 1])
          && run.states[j] == After(run.db, run.states[j - 1], run.steps[j - 1]);
      StepKeepsHistory(run.db, run.states[j - 1], run.steps[j - 1]);
    }
  }

  /** A reader holds a whole published result, and it keeps it whatever is
      published, fails or is cancelled meanwhile. */
  lemma ReadersHoldWholeResults(run: Run, k: nat, r: nat)
    requires run.Valid() && k < |run.states| && r in run.states[k].held
    ensures var s := run.states[k]; var snapshot := s.held[r];
      IsPublished(s, snapshot) && Whole(snapshot.seen) && Staged(snapshot.seen)
    ensures k + 1 < |run.states| && run.steps[k] != Release(r) && run.steps[k] != Take(r) ==>
      r in run.states[k + 1].held && run.states[k + 1].held[r] == run.states[k].held[r]
  {
    RunKeepsInv(run, k);
    var s := run.states[k];
    assert IsPublished(s, s.held[r]);
    assert IsPublication(s.published, s.held[r].id);
    if k + 1 < |run.states| {
      hide Whole, MayRead, IsStale;
      assert Enabled(s, run.steps[k]) && run.states[k + 1] == After(run.db, s, run.steps[k]);
    }
  }

  /** A reader that takes the result twice does not go back to an older one. */
  lemma ReadersNeverGoBack(run: Run, i: nat, j: nat)
    requires run.Valid() && i <= j < |run.states| && run.states[i].current.Some?
    ensures run.states[j].current.Some? && run.states[i].current.value.id <= run.states[j].current.value.id
  {
    RunKeepsInv(run, i);
    RunKeepsInv(run, j);
    HistoryOnlyGrows(run, i, j);
    var a, b := run.states[i].published, run.states[j].published;
    assert IsPublication(a, |a| - 1) && IsPublication(b, |b| - 1);
  }

  /** Between two states without a swap in between, whatever fails or is
      cancelled, the current result stays. */
  lemma {:induction false} OnlySwapsChangeTheResult(run: Run, i: nat, j: nat)
    requires run.Valid() && i <= j < |run.states|
    requires forall k :: i <= k < j ==> !run.steps[k].Publish?
    ensures run.states[j].current == run.states[i].current && run.states[j].published == run.states[i].published
  {
    if i < j {
      OnlySwapsChangeTheResult(run, i, j - 1);
      hide Whole, MayRead, IsStale;
      assert Enabled(run.states[j - 1], run.steps[j - 1])
          && run.states[j] == After(run.db, run.states[j - 1], run.steps[j - 1]);
    }
  }

  /** At most one task builds at a time. */
  lemma OneBuildAtATime(run: Run, k: nat, t: nat, u: nat)
    requires run.Valid() && k < |run.states|
    requires IsBuilding(run.states[k], t) && IsBuilding(run.states[k], u)
    ensures t == u
  {
    RunKeepsInv(run, k);
  }

  /** No interleaving blocks the refreshers: a build always has a query to run or is
      ready to publish, can fail at any time, and every end of it, as the cancellation of
      any task, lets the next task that waits take the lock. */
  lemma NeverStuck(run: Run, k: nat, t: nat, u: nat) returns (q: Query)
    requires run.Valid() && k < |run.states| && IsBuilding(run.states[k], t)
    requires u in run.states[k].tasks && run.states[k].tasks[u].Waiting?
    ensures var s := run.states[k];
      && (Enabled(s, RunQuery(t, q)) || Enabled(s, Publish(t)))
      && Enabled(s, Fail(t)) && Enabled(After(run.db, s, Fail(t)), Acquire(u))
      && Enabled(s, Cancel(t)) && Enabled(After(run.db, s, Cancel(t)), Acquire(u))
      && (Enabled(s, Publish(t)) ==> Enabled(After(run.db, s, Publish(t)), Acquire(u)))
  {
    RunKeepsInv(run, k);
    q := NextQuery(run.states[k].tasks[t].seen);
  }

  lemma NextQuery(seen: Reads) returns (q: Query)
    ensures MayRead(seen, q) || Whole(seen)
  {
    if p: Query :| p !in seen && Stage(p) == 0 { q := p; }
    else if p: Query :| p !in seen && Stage(p) == 1 { q := p; }
    else if p: Query :| p !in seen && Stage(p) == 2 { q := p; }
    else if p: Query :| p !in seen && Stage(p) == 3 { q := p; }
    else if p: Query :| p !in seen { q := p; }
    else { q := LatestDelivery; }
  }

  // --- Stale results ---------------------------------------------------------------------------------------

  /** A result is reported stale at most once, and serving it stale reports it. */
  lemma StaleIsReportedOnce(run: Run, k: nat)
    requires run.Valid() && k < |run.states|
    ensures forall i: nat, j: nat :: i < j < |run.states[k].warnings| ==> run.states[k].warnings[i] != run.states[k].warnings[j]
    ensures forall i: nat :: i < k && run.steps[i].Serve? && IsStale(run.db, run.states[i].held[run.steps[i].reader], run.steps[i].now) ==>
      run.states[i].held[run.steps[i].reader].id in run.states[k].warnings
  {
    RunKeepsInv(run, k);
    forall i: nat | i < k && run.steps[i].Serve? && IsStale(run.db, run.states[i].held[run.steps[i].reader], run.steps[i].now)
      ensures run.states[i].held[run.steps[i].reader].id in run.states[k].warnings
    {
      var id := run.states[i].held[run.steps[i].reader].id;
      assert Enabled(run.states[i], run.steps[i]) && run.states[i + 1] == After(run.db, run.states[i], run.steps[i]);
      FlagsStay(run, id, i + 1, k);
    }
  }

  /** The served result is over two hours old by every dataset that has an issuance,
      and one has. */
  ghost predicate ServedStale(run: Run, m: nat, id: nat)
    requires run.Valid() && m < |run.steps|
  {
    && run.steps[m].Serve? && run.steps[m].reader in run.states[m].held
    && var snapshot := run.states[m].held[run.steps[m].reader];
       && snapshot.id == id && WindIssued in snapshot.seen && ConsumptionIssued in snapshot.seen
       && var wind := run.db.wind(snapshot.seen[WindIssued].version);
          var consumption := run.db.consumption(snapshot.seen[ConsumptionIssued].version);
          && (wind.Some? || consumption.Some?)
          && (wind.Some? ==> run.steps[m].now - wind.value > 2 * 60 * 60 * 1000)
          && (consumption.Some? ==> run.steps[m].now - consumption.value > 2 * 60 * 60 * 1000)
  }

  lemma StaleIsOld(run: Run, m: nat)
    requires run.Valid() && m < |run.steps| && run.steps[m].Serve? && run.steps[m].reader in run.states[m].held
    ensures var snapshot := run.states[m].held[run.steps[m].reader];
      IsStale(run.db, snapshot, run.steps[m].now) <==> ServedStale(run, m, snapshot.id)
  {
    var snapshot := run.states[m].held[run.steps[m].reader];
    ReadersHoldWholeResults(run, m, run.steps[m].reader);
    assert WindIssued in snapshot.seen && ConsumptionIssued in snapshot.seen;
    hide Run.Valid, Whole, Staged, IsPublished;
  }

  /** A warning is only ever for a result that was served when it was stale. */
  lemma {:induction false} WarningsAreForStale(run: Run, k: nat, i: nat) returns (m: nat)
    requires run.Valid() && k < |run.states| && i < |run.states[k].warnings|
    ensures m < k && ServedStale(run, m, run.states[k].warnings[i])
  {
    var s, step := run.states[k - 1], run.steps[k - 1];
    assert Enabled(s, step) && run.states[k] == After(run.db, s, step);
    if i < |s.warnings| {
      WarningsStay(run.db, s, step, i);
      m := WarningsAreForStale(run, k - 1, i);
    } else {
      NewWarning(run.db, s, step, i);
      m := k - 1;
      StaleIsOld(run, m);
    }
  }

  lemma WarningsStay(db: Database, s: State, step: Step, i: nat)
    requires Enabled(s, step) && i < |s.warnings|
    ensures var s' := After(db, s, step); i < |s'.warnings| && s'.warnings[i] == s.warnings[i]
  {
    hide MayRead, IsStale, Whole;
  }

  lemma NewWarning(db: Database, s: State, step: Step, i: nat)
    requires Enabled(s, step) && |s.warnings| <= i < |After(db, s, step).warnings|
    ensures step.Serve? && step.reader in s.held && IsStale(db, s.held[step.reader], step.now)
    ensures After(db, s, step).warnings[i] == s.held[step.reader].id
  {
    hide MayRead, IsStale, Whole;
  }

  lemma {:induction false} FlagsStay(run: Run, id: nat, i: nat, j: nat)
    requires run.Valid() && i <= j < |run.states| && id in run.states[i].flags
    ensures id in run.states[j].flags
  {
    if i < j {
      FlagsStay(run, id, i, j - 1);
      hide Whole, MayRead, IsStale;
      assert Enabled(run.states[j - 1], run.steps[j - 1])
          && run.states[j] == After(run.db, run.states[j - 1], run.steps[j - 1]);
    }
  }

  // --- What is not promised ------------------------------------------------------------------------------------

  lemma Extended(run: Run, step: Step) returns (longer: Run)
    requires run.Valid() && Enabled(Last(run), step)
    ensures longer.Valid() && longer.db == run.db && Last(longer) == After(run.db, Last(run), step)
  {
    hide Enabled, After;
    longer := Run(run.db, run.states + [After(run.db, Last(run), step)], run.steps + [step]);
    forall i | 0 <= i < |longer.steps|
      ensures Enabled(longer.states[i], longer.steps[i])
        && longer.states[i + 1] == After(run.db, longer.states[i], longer.steps[i])
    {
      if i < |run.steps| {
        assert Enabled(run.states[i], run.steps[i]) && run.states[i + 1] == After(run.db, run.states[i], run.steps[i]);
      }
    }
  }

  ghost function Last(run: Run): State
    requires run.Valid()
  {
    run.states[|run.states| - 1]
  }

  ghost predicate SameOthers(a: map<nat, Task>, b: map<nat, Task>, t: nat) {
    forall u: nat :: u != t ==> (u in a <==> u in b) && (u in a && u in b ==> a[u] == b[u])
  }

  /** The queries in an order that follows their stages. */
  function Index(q: Query): nat {
    match q
    case LatestDelivery => 0
    case FiPrices => 1
    case NeighborPrices => 2
    case WindForecast => 3
    case WindActual => 4
    case ConsumptionForecast => 5
    case ConsumptionActual => 6
    case PricesFetched => 7
    case WindIssued => 8
    case ConsumptionIssued => 9
  }

  lemma QueryAt(n: nat) returns (q: Query)
    requires n < 10
    ensures Index(q) == n
  {
    q := if n == 0 then LatestDelivery else if n == 1 then FiPrices else if n == 2 then NeighborPrices
         else if n == 3 then WindForecast else if n == 4 then WindActual else if n == 5 then ConsumptionForecast
         else if n == 6 then ConsumptionActual else if n == 7 then PricesFetched else if n == 8 then WindIssued
         else ConsumptionIssued;
  }

  /** From s0 on, only task t has read, and it has read the first n queries. */
  ghost predicate Reading(s0: State, s: State, t: nat, now: int, n: nat) {
    && s.lock == Some(t) && IsBuilding(s, t) && s.tasks[t].now == now
    && (forall q: Query :: q in s.tasks[t].seen <==> Index(q) < n)
    && s.published == s0.published && SameOthers(s0.tasks, s.tasks, t)
  }

  lemma {:induction false} ReadAll(run: Run, s0: State, t: nat, now: int, n: nat) returns (longer: Run)
    requires run.Valid() && n <= 10 && Reading(s0, Last(run), t, now, n)
    ensures longer.Valid() && longer.db == run.db && Reading(s0, Last(longer), t, now, 10)
    ensures forall q: Query ::
      (Last(longer).tasks[t].seen[q].version ==
       if Index(q) < n then Last(run).tasks[t].seen[q].version else Last(run).version)
    decreases 10 - n
  {
    if n == 10 {
      longer := run;
    } else {
      var q := QueryAt(n);
      assert Enabled(Last(run), RunQuery(t, q));
      var more := Extended(run, RunQuery(t, q));
      assert Reading(s0, Last(more), t, now, n + 1) by {
        IndexIsUnique(q);
      }
      longer := ReadAll(more, s0, t, now, n + 1);
    }
  }

  lemma IndexIsUnique(q: Query)
    ensures forall p: Query :: Index(p) == Index(q) ==> p == q
  {
  }

  /** A task that waits for the free lock can build without a failure. */
  lemma FullBuild(run: Run, t: nat) returns (longer: Run)
    requires run.Valid() && Last(run).lock.None? && t in Last(run).tasks && Last(run).tasks[t].Waiting?
    ensures longer.Valid() && longer.db == run.db
    ensures var s, s' := Last(run), Last(longer);
      && s'.lock.None? && SameOthers(s.tasks, s'.tasks, t)
      && |s'.published| == |s.published| + 1 && s.published <= s'.published
      && s'.published[|s.published|].snapshot.builtAt == s.tasks[t].now
  {
    hide Run.Valid;
    var s0, now := Last(run), Last(run).tasks[t].now;
    var begun := Extended(run, Acquire(t));
    assert Reading(s0, Last(begun), t, now, 0);
    var done := ReadAll(begun, s0, t, now, 0);
    assert Enabled(Last(done), Publish(t));
    longer := Extended(done, Publish(t));
  }

  /** A refresh reads the clock before it waits for the lock, so a later result
      can carry an earlier build instant. */
  lemma BuildInstantCanGoBack(db: Database)
    ensures exists run: Run ::
      (run.Valid() && run.db == db && |Last(run).published| == 2
       && Last(run).published[0].snapshot.builtAt > Last(run).published[1].snapshot.builtAt)
  {
    var run := Run(db, [INITIAL], []);
    run := Extended(run, Start(0, 10));
    run := Extended(run, Start(1, 20));
    run := FullBuild(run, 1);
    run := FullBuild(run, 0);
    assert run.Valid();
  }

  /** The reads of a build are not one database snapshot: a write between two
      queries leaves a result of two versions. */
  lemma ResultCanMixVersions(db: Database)
    ensures exists run: Run ::
      (run.Valid() && run.db == db && |Last(run).published| == 1
       && var seen := Last(run).published[0].snapshot.seen;
          LatestDelivery in seen && FiPrices in seen && seen[LatestDelivery].version < seen[FiPrices].version)
  {
    var run := Run(db, [INITIAL], []);
    run := Extended(run, Start(0, 10));
    run := Extended(run, Acquire(0));
    run := Extended(run, RunQuery(0, LatestDelivery));
    run := Extended(run, Write);
    hide Run.Valid;
    var s0 := INITIAL;
    IndexIsUnique(LatestDelivery);
    assert Reading(s0, Last(run), 0, 10, 1);
    var done := ReadAll(run, s0, 0, 10, 1);
    assert Enabled(Last(done), Publish(0));
    var longer := Extended(done, Publish(0));
    var seen := Last(longer).published[0].snapshot.seen;
    assert seen[LatestDelivery].version == 0 && seen[FiPrices].version == 1;
  }
}

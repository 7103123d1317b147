/** What the arms of an evaluation minimise and cost, by the contract cost itself. */
module ScheduleCosts {
  import opened Common
  import opened Quarters
  import opened Schedule

  /** The contract cost of n quarters from start, at known spot prices. */
  function CostOfRun(cost: Cost, spot: int -> real, start: int, n: nat): real {
    if n == 0 then 0.0 else CostOfRun(cost, spot, start, n - 1) + cost(spot(start + (n - 1) * 15 * 60 * 1000), start + (n - 1) * 15 * 60 * 1000)
  }

  /** The spot price at every quarter of the window. */
  ghost predicate SpotOf(task: ScheduleTask, spot: int -> real, known: int -> Option<real>) {
    forall q :: Aligned(q) && task.earliest <= q < task.deadline ==> known(q) == Some(spot(q))
  }

  lemma {:induction false} TotalIsCost(price: Price, cost: Cost, spot: int -> real, task: ScheduleTask, start: int, n: nat)
    requires FeasibleStart(task, start) && n <= task.quarters
    requires forall q :: Aligned(q) && task.earliest <= q < task.deadline ==> price(q) == Some(cost(spot(q), q))
    ensures RunTotal(price, start, n) == CostOfRun(cost, spot, start, n)
  {
    hide Aligned, FeasibleStart;
    if n > 0 {
      TotalIsCost(price, cost, spot, task, start, n - 1);
      RunQuarterInside(task, start, n - 1);
    }
  }

  /** The cost of an arm is the mean contract cost of its run at the realised prices. */
  lemma ArmCostIsMeanCost(e: Evaluation, task: ScheduleTask, spot: int -> real, start: int)
    requires FeasibleStart(task, start) && task.quarters > 0 && SpotOf(task, spot, q => Lookup(e.realised, q))
    ensures RunMean(e.Realised(), start, task.quarters) * task.quarters as real == CostOfRun(e.cost, spot, start, task.quarters)
  {
    hide FeasibleStart, RunTotal, CostOfRun, Aligned;
    forall q | Aligned(q) && task.earliest <= q < task.deadline
      ensures e.Realised()(q) == Some(e.cost(spot(q), q))
    {
      assert (q => Lookup(e.realised, q))(q) == Some(spot(q));
    }
    TotalIsCost(e.Realised(), e.cost, spot, task, start, task.quarters);
    MeanTimesCount(RunTotal(e.Realised(), start, task.quarters), task.quarters);
  }

  lemma MeanTimesCount(total: real, n: nat)
    requires n > 0
    ensures total / n as real * n as real == total
  {
  }

  /** The price that an arm expects: the published one before the origin, and from
      then on its prediction, last week's or the last published day's. */
  ghost function Expected(e: Evaluation, arm: nat): int -> Option<real>
    requires arm < |e.predictions| + 2
  {
    q =>
      if q < e.origin then Lookup(e.published, q)
      else if arm < |e.predictions| then Lookup(e.predictions[arm], q)
      else if arm == |e.predictions| then e.lastWeek(q)
      else e.lastPublishedDay(q)
  }

  lemma ArmPriceAt(e: Evaluation, arm: nat, q: int)
    requires arm < e.Arms() && Aligned(q)
    ensures e.PriceOf(arm)(q) == match Expected(e, arm)(q) case None => None case Some(spot) => Some(e.cost(spot, q))
  {
    assert Floor(q) == q;
    hide Floor, Aligned;
    var estimate := e.Estimate(arm);
    assert q >= e.origin ==> estimate(q) == Expected(e, arm)(q);
    assert e.PriceOf(arm)(q) == Priced(e.cost, q, if q < e.origin then Lookup(e.published, q) else estimate(q));
  }

  /** An arm starts where the contract cost at its expected prices is lowest, at the
      earliest such start. */
  lemma ArmsMinimiseCost(e: Evaluation, task: ScheduleTask, starts: seq<int>, arm: nat, spot: int -> real, s: int)
    requires WindowQuarters(task).Ok? && AreStarts(e, task, starts) && arm < e.Arms()
    requires SpotOf(task, spot, Expected(e, arm)) && FeasibleStart(task, s)
    ensures CostOfRun(e.cost, spot, starts[arm], task.quarters) <= CostOfRun(e.cost, spot, s, task.quarters)
    ensures s < starts[arm] ==> CostOfRun(e.cost, spot, starts[arm], task.quarters) < CostOfRun(e.cost, spot, s, task.quarters)
  {
    hide FeasibleStart, RunTotal, CostOfRun, Aligned, WindowQuarters, Expected, Evaluation.PriceOf;
    assert IsCheapestStart(task, e.PriceOf(arm), starts[arm]);
    forall q | Aligned(q) && task.earliest <= q < task.deadline
      ensures e.PriceOf(arm)(q) == Some(e.cost(spot(q), q))
    {
      ArmPriceAt(e, arm, q);
    }
    TotalIsCost(e.PriceOf(arm), e.cost, spot, task, starts[arm], task.quarters);
    TotalIsCost(e.PriceOf(arm), e.cost, spot, task, s, task.quarters);
  }

  /** Hindsight is the same at the realised prices, and the price-blind arm starts at
      the start of the window. */
  lemma HindsightMinimisesCost(e: Evaluation, task: ScheduleTask, starts: seq<int>, spot: int -> real, s: int)
    requires WindowQuarters(task).Ok? && AreStarts(e, task, starts)
    requires SpotOf(task, spot, q => Lookup(e.realised, q)) && FeasibleStart(task, s)
    ensures var n := |e.predictions| + 2;
      && |starts| == n + 2 && starts[n] == task.earliest
      && CostOfRun(e.cost, spot, starts[n + 1], task.quarters) <= CostOfRun(e.cost, spot, s, task.quarters)
  {
    hide FeasibleStart, RunTotal, CostOfRun, Aligned, WindowQuarters;
    forall q | Aligned(q) && task.earliest <= q < task.deadline
      ensures e.Realised()(q) == Some(e.cost(spot(q), q))
    {
      assert (q => Lookup(e.realised, q))(q) == Some(spot(q));
    }
    TotalIsCost(e.Realised(), e.cost, spot, task, starts[e.Arms() + 1], task.quarters);
    TotalIsCost(e.Realised(), e.cost, spot, task, s, task.quarters);
  }

  // --- Why a task is left out ---------------------------------------------------------------

  /** A task has a window exactly when it asks for a run, starts and ends on the grid,
      and its run fits from its first quarter on. */
  lemma WindowExists(task: ScheduleTask)
    ensures WindowQuarters(task).Ok? <==> task.quarters > 0 && Aligned(task.deadline) && FeasibleStart(task, task.earliest)
  {
  }

  /** The arm expects a price for every quarter of the window past the origin. */
  ghost predicate Complete(e: Evaluation, task: ScheduleTask, arm: nat)
    requires arm < |e.predictions| + 2
  {
    forall q :: Aligned(q) && task.earliest <= q < task.deadline && e.origin <= q ==> Expected(e, arm)(q).Some?
  }

  lemma CompleteIsKnown(e: Evaluation, task: ScheduleTask, arm: nat)
    requires WindowQuarters(task).Ok? && arm < e.Arms()
    ensures Complete(e, task, arm) <==> EstimateKnown(e.origin, e.Estimate(arm), WindowQuarters(task).value)
  {
    var window := WindowQuarters(task).value;
    hide WindowQuarters, Aligned, FeasibleStart;
    if Complete(e, task, arm) {
      forall i | 0 <= i < |window| && window[i] >= e.origin
        ensures e.Estimate(arm)(window[i]).Some?
      {
        WindowIsTheTask(task, window[i]);
        assert Expected(e, arm)(window[i]).Some?;
      }
    }
    if EstimateKnown(e.origin, e.Estimate(arm), window) {
      forall q | Aligned(q) && task.earliest <= q < task.deadline && e.origin <= q
        ensures Expected(e, arm)(q).Some?
      {
        WindowIsTheTask(task, q);
        var i :| 0 <= i < |window| && window[i] == q;
        assert e.Estimate(arm)(window[i]).Some?;
      }
    }
  }

  /** With all realised and published prices, a task is scored exactly when every arm is
      complete; otherwise the exclusion names the first arm that is not. */
  lemma ExclusionNamesTheFirst(e: Evaluation, task: ScheduleTask, r: Result<seq<real>, Exclusion>) returns (arm: nat)
    requires IsOutcome(e, task, r)
    ensures r == Err(NoRun) <==> WindowQuarters(task).Err?
    ensures WindowQuarters(task).Ok? ==> (r == Err(FullyPublished) <==> task.deadline <= e.origin)
    ensures var n := |e.predictions|;
      WindowQuarters(task).Ok? && task.deadline > e.origin && r != Err(MissingRealised) ==>
        if arm == n + 2 then r.Ok? && forall a: nat :: a < n + 2 ==> Complete(e, task, a)
        else
          && arm < n + 2 && !Complete(e, task, arm) && (forall a: nat :: a < arm ==> Complete(e, task, a))
          && r == Err(if arm < n then MissingForecast(arm) else if arm == n then MissingLastWeek else MissingLastPublishedDay)
  {
    arm := 0;
    if WindowQuarters(task).Ok? && task.deadline > e.origin && r != Err(MissingRealised) {
      forall a: nat | a < e.Arms()
        ensures Complete(e, task, a) <==> EstimateKnown(e.origin, e.Estimate(a), WindowQuarters(task).value)
      {
        CompleteIsKnown(e, task, a);
      }
      hide WindowQuarters, EstimateKnown, Complete;
      if e.Known(WindowQuarters(task).value, e.Arms()) {
        arm := e.Arms();
      } else {
        arm :| arm < e.Arms() && e.Known(WindowQuarters(task).value, arm)
          && !EstimateKnown(e.origin, e.Estimate(arm), WindowQuarters(task).value) && r == Err(e.Missing(arm));
      }
    }
  }

  /** The arms share the realised and the published prices: the task is left out for
      them exactly when a quarter has no realised price, or none published in time. */
  lemma MissingRealisedExactly(e: Evaluation, task: ScheduleTask, r: Result<seq<real>, Exclusion>)
    requires IsOutcome(e, task, r) && WindowQuarters(task).Ok? && task.deadline > e.origin
    ensures r == Err(MissingRealised) <==>
      exists q :: Aligned(q) && task.earliest <= q < task.deadline && (q !in e.realised || (q < e.origin && q !in e.published))
  {
    var window := WindowQuarters(task).value;
    forall q
      ensures q in window <==> Aligned(q) && task.earliest <= q < task.deadline
      ensures Aligned(q) ==> Floor(q) == q
    {
      WindowIsTheTask(task, q);
    }
    hide WindowQuarters, Aligned, EstimateKnown;
    assert forall i :: 0 <= i < |window| ==> window[i] in window;
  }
}

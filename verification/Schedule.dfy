/** Continuous schedules on the quarter grid: the choice of the cheapest start,
    its agreement with the cheapest price window, and the arms of one task. */
module Schedule {
  import opened Common
  import opened Quarters
  import opened CheapestWindow
  import LinearAlgebra

  datatype ScheduleTask = ScheduleTask(earliest: int, deadline: int, quarters: nat)

  datatype ScheduleError = Infeasible | MissingQuarter(quarter: int)

  type Price = int -> Option<real>

  // --- The quarters of a task ------------------------------------------------------------------

  function Grid(start: int, count: nat): (r: seq<int>)
    ensures |r| == count && forall i :: 0 <= i < count ==> r[i] == start + i * QUARTER_MS
  {
    seq(count, i => start + i * QUARTER_MS)
  }

  function WindowQuarters(task: ScheduleTask): Result<seq<int>, ScheduleError> {
    var span := task.deadline - task.earliest;
    if task.quarters == 0 || span <= 0 || task.earliest % QUARTER_MS != 0 || span % QUARTER_MS != 0 then Err(Infeasible)
    else if span / QUARTER_MS < task.quarters then Err(Infeasible)
    else Ok(Grid(task.earliest, span / QUARTER_MS))
  }

  /** A run fits the task from start on. */
  ghost predicate FeasibleStart(task: ScheduleTask, start: int) {
    && Aligned(start) && task.earliest <= start
    && start + task.quarters * QUARTER_MS <= task.deadline
  }

  lemma GridIndex(task: ScheduleTask, q: int) returns (i: nat)
    requires WindowQuarters(task).Ok? && Aligned(q) && task.earliest <= q < task.deadline
    ensures i < |WindowQuarters(task).value| && WindowQuarters(task).value[i] == q
    ensures q + task.quarters * QUARTER_MS <= task.deadline ==> i + task.quarters <= |WindowQuarters(task).value|
  {
    i := (q - task.earliest) / QUARTER_MS;
    assert q == task.earliest + i * QUARTER_MS;
  }

  lemma GridInside(task: ScheduleTask, i: nat)
    requires WindowQuarters(task).Ok? && i < |WindowQuarters(task).value|
    ensures var q := WindowQuarters(task).value[i];
      Aligned(q) && task.earliest <= q < task.deadline
      && (i + task.quarters <= |WindowQuarters(task).value| ==> q + task.quarters * QUARTER_MS <= task.deadline)
  {
  }

  /** The window holds exactly the quarters between the bounds, and a start is
      feasible when its run lies in the window. */
  lemma WindowIsTheTask(task: ScheduleTask, q: int)
    requires WindowQuarters(task).Ok?
    ensures q in WindowQuarters(task).value <==> Aligned(q) && task.earliest <= q < task.deadline
    ensures FeasibleStart(task, q) <==>
      exists i: nat :: i + task.quarters <= |WindowQuarters(task).value| && WindowQuarters(task).value[i] == q
  {
    var window := WindowQuarters(task).value;
    assert task.quarters > 0;
    hide WindowQuarters, Aligned;
    if Aligned(q) && task.earliest <= q < task.deadline {
      var i := GridIndex(task, q);
      assert window[i] == q;
    }
    if q in window {
      var i: nat :| i < |window| && window[i] == q;
      GridInside(task, i);
    }
    forall i: nat | i + task.quarters <= |window| && window[i] == q
      ensures FeasibleStart(task, q)
    {
      GridInside(task, i);
    }
  }

  // --- The sum of a run ------------------------------------------------------------------------------

  function Known(price: Price, q: int): real {
    var p := price(q);
    if p.Some? then p.value else 0.0
  }

  /** The summed price of count quarters from start. */
  function RunTotal(price: Price, start: int, count: nat): real {
    if count == 0 then 0.0
    else RunTotal(price, start, count - 1) + Known(price, start + (count - 1) * QUARTER_MS)
  }

  function RunMean(price: Price, start: int, count: nat): real
    requires count > 0
  {
    RunTotal(price, start, count) / count as real
  }

  ghost predicate AllKnown(price: Price, quarters: seq<int>) {
    forall i :: 0 <= i < |quarters| ==> price(quarters[i]).Some?
  }

  ghost predicate FirstUnknown(price: Price, quarters: seq<int>, k: nat)
    requires k < |quarters|
  {
    price(quarters[k]).None? && AllKnown(price, quarters[..k])
  }

  /** The cheapest feasible start, and the earliest of them. */
  ghost predicate IsCheapestStart(task: ScheduleTask, price: Price, start: int) {
    && FeasibleStart(task, start)
    && forall s :: FeasibleStart(task, s) ==>
         RunTotal(price, start, task.quarters) <= RunTotal(price, s, task.quarters)
         && (s < start ==> RunTotal(price, start, task.quarters) < RunTotal(price, s, task.quarters))
  }

  lemma CheapestStartIsUnique(task: ScheduleTask, price: Price, s: int, t: int)
    requires IsCheapestStart(task, price, s) && IsCheapestStart(task, price, t)
    ensures s == t
  {
  }

  /** The prices of the quarters, or the first quarter without one. */
  method Collect(quarters: seq<int>, price: Price) returns (r: Result<seq<real>, ScheduleError>)
    ensures r.Ok? <==> AllKnown(price, quarters)
    ensures r.Ok? ==> |r.value| == |quarters| && forall i :: 0 <= i < |quarters| ==> r.value[i] == Known(price, quarters[i])
    ensures r.Err? ==>
      exists k: nat :: k < |quarters| && FirstUnknown(price, quarters, k) && r.error == MissingQuarter(quarters[k])
  {
    var values: seq<real> := [];
    for i := 0 to |quarters|
      invariant |values| == i
      invariant forall k :: 0 <= k < i ==> price(quarters[k]).Some? && values[k] == Known(price, quarters[k])
    {
      var p := price(quarters[i]);
      if p.None? {
        return Err(MissingQuarter(quarters[i]));
      }
      values := values + [p.value];
    }
    r := Ok(values);
  }

  method SumOf(values: seq<real>, price: Price, start: int) returns (total: real)
    requires forall i :: 0 <= i < |values| ==> values[i] == Known(price, start + i * QUARTER_MS)
    ensures total == RunTotal(price, start, |values|)
  {
    total := 0.0;
    for i := 0 to |values|
      invariant total == RunTotal(price, start, i)
    {
      total := total + values[i];
    }
  }

  /** The start of the cheapest run in the window. */
  method CheapestStart(task: ScheduleTask, price: Price) returns (r: Result<int, ScheduleError>)
    ensures r.Ok? <==> WindowQuarters(task).Ok? && AllKnown(price, WindowQuarters(task).value)
    ensures r.Ok? ==> IsCheapestStart(task, price, r.value)
    ensures WindowQuarters(task).Err? ==> r == Err(Infeasible)
    ensures WindowQuarters(task).Ok? && r.Err? ==>
      exists k: nat :: k < |WindowQuarters(task).value| && FirstUnknown(price, WindowQuarters(task).value, k)
        && r.error == MissingQuarter(WindowQuarters(task).value[k])
  {
    hide RunTotal;
    var window := WindowQuarters(task);
    if window.Err? {
      return Err(window.error);
    }
    var quarters := window.value;
    var prices := Collect(quarters, price);
    if prices.Err? {
      return Err(prices.error);
    }
    var best: Option<(real, int)> := None;
    for i := 0 to |quarters| - task.quarters + 1
      invariant best.None? <==> i == 0
      invariant best.Some? ==> (best.value.0 == RunTotal(price, best.value.1, task.quarters)
                                && exists k: nat :: k < i && best.value.1 == quarters[k])
      invariant forall k: nat :: k < i ==>
                  (best.value.0 <= RunTotal(price, quarters[k], task.quarters)
                   && (quarters[k] < best.value.1 ==> best.value.0 < RunTotal(price, quarters[k], task.quarters)))
    {
      var total := SumOf(prices.value[i..i + task.quarters], price, quarters[i]);
      if best.None? || total < best.value.0 {
        best := Some((total, quarters[i]));
      }
    }
    var start := best.value.1;
    WindowIsTheTask(task, start);
    forall s | FeasibleStart(task, s)
      ensures RunTotal(price, start, task.quarters) <= RunTotal(price, s, task.quarters)
      ensures s < start ==> RunTotal(price, start, task.quarters) < RunTotal(price, s, task.quarters)
    {
      WindowIsTheTask(task, s);
    }
    r := Ok(start);
  }

  /** The mean price of one run, or its first quarter without a price. An empty
      run has no mean: `None` is NaN. */
  method RunMeanPrice(start: int, quarters: nat, price: Price) returns (r: Result<Option<real>, ScheduleError>)
    ensures r.Ok? <==> AllKnown(price, Grid(start, quarters))
    ensures r.Ok? ==> r.value == if quarters == 0 then None else Some(RunMean(price, start, quarters))
    ensures r.Err? ==>
      exists k: nat :: k < quarters && FirstUnknown(price, Grid(start, quarters), k)
        && r.error == MissingQuarter(start + k * QUARTER_MS)
  {
    hide RunTotal;
    var grid := Grid(start, quarters);
    var values := Collect(grid, price);
    if values.Err? {
      return Err(values.error);
    }
    var total := SumOf(values.value, price, start);
    r := Ok(if quarters == 0 then None else Some(total / quarters as real));
  }

  // --- Agreement with the cheapest price window -----------------------------------------------------

  /** The price intervals of the window of the task. */
  ghost function GridPrices(task: ScheduleTask, price: Price): (r: seq<TotalPrice>)
    requires WindowQuarters(task).Ok?
    ensures |r| == |WindowQuarters(task).value|
  {
    var quarters := WindowQuarters(task).value;
    seq(|quarters|, i requires 0 <= i < |quarters| =>
      PriceEntry(quarters[i], quarters[i] + QUARTER_MS, Known(price, quarters[i])))
  }

  lemma {:induction false} GridSums(task: ScheduleTask, price: Price, s: nat, e: nat)
    requires WindowQuarters(task).Ok? && s <= e <= |WindowQuarters(task).value|
    ensures Minutes(GridPrices(task, price), s, e) == 15.0 * (e - s) as real
    ensures s < e ==>
      Weighted(GridPrices(task, price), s, e) == 15.0 * RunTotal(price, WindowQuarters(task).value[s], e - s)
  {
    hide Minutes, Weighted;
    var prices, quarters := GridPrices(task, price), WindowQuarters(task).value;
    MinutesEmpty(prices, s);
    if s < e {
      GridSums(task, price, s, e - 1);
      assert prices[e - 1].Minutes() == 15.0;
      MinutesStep(prices, s, e - 1);
      assert quarters[s] + (e - s - 1) * QUARTER_MS == quarters[e - 1];
    }
  }

  lemma SameRatio(a: real, n: real)
    requires n > 0.0
    ensures (15.0 * a) / (15.0 * n) == a / n
  {
    var x := a / n;
    assert x * n == a;
    assert x * (15.0 * n) == 15.0 * (x * n);
  }

  lemma GridWindows(task: ScheduleTask, price: Price, s: nat, e: nat)
    requires WindowQuarters(task).Ok?
    ensures IsWindow(GridPrices(task, price), 15 * task.quarters, s, e)
      <==> e == s + task.quarters && e <= |WindowQuarters(task).value|
    ensures e == s + task.quarters && e <= |WindowQuarters(task).value| ==>
      Average(GridPrices(task, price), s, e) == RunMean(price, WindowQuarters(task).value[s], task.quarters)
  {
    hide Minutes, Weighted, RunTotal;
    var prices, quarters := GridPrices(task, price), WindowQuarters(task).value;
    if s < e <= |quarters| {
      GridSums(task, price, s, e);
      GridSums(task, price, s, e - 1);
      forall i | s < i < e
        ensures prices[i].start == prices[i - 1].end
      {
      }
      if e == s + task.quarters {
        var total, n := RunTotal(price, quarters[s], task.quarters), task.quarters as real;
        SameRatio(total, n);
      }
    }
  }

  lemma MeanOrder(a: real, b: real, n: nat)
    requires n > 0
    ensures a / n as real <= b / n as real <==> a <= b
    ensures a / n as real < b / n as real <==> a < b
  {
    var x, y, m := a / n as real, b / n as real, n as real;
    assert x * m == a && y * m == b;
    var above, below := LinearAlgebra.Times(y - x, m), LinearAlgebra.Times(x - y, m);
    assert above == b - a && below == a - b;
  }

  /** On the gap-free grid, the cheapest window of 15 minutes for each quarter of
      the run is the cheapest run of the task. */
  lemma SameChoice(task: ScheduleTask, price: Price, s: nat, e: nat)
    requires WindowQuarters(task).Ok?
    ensures IsCheapest(GridPrices(task, price), 15 * task.quarters, s, e) <==>
      (e == s + task.quarters && e <= |WindowQuarters(task).value|
       && IsCheapestStart(task, price, WindowQuarters(task).value[s]))
  {
    hide Minutes, Weighted, RunTotal, IsWindow, Average, WindowQuarters, FeasibleStart;
    var prices, quarters, k := GridPrices(task, price), WindowQuarters(task).value, task.quarters;
    RunsAreLong(task);
    forall t: nat, f: nat
      ensures IsWindow(prices, 15 * k, t, f) <==> f == t + k && f <= |quarters|
      ensures f == t + k && f <= |quarters| ==> Average(prices, t, f) == RunMean(price, quarters[t], k)
    {
      GridWindows(task, price, t, f);
    }
    if e == s + k && e <= |quarters| {
      var mine := RunTotal(price, quarters[s], k);
      WindowIsTheTask(task, quarters[s]);
      if IsCheapest(prices, 15 * k, s, e) {
        forall start | FeasibleStart(task, start)
          ensures mine <= RunTotal(price, start, k)
          ensures start < quarters[s] ==> mine < RunTotal(price, start, k)
        {
          WindowIsTheTask(task, start);
          var t: nat :| t + k <= |quarters| && quarters[t] == start;
          assert IsWindow(prices, 15 * k, t, t + k);
          MeanOrder(mine, RunTotal(price, start, k), k);
          GridOrder(task, t, s);
        }
      }
      if IsCheapestStart(task, price, quarters[s]) {
        forall t: nat, f: nat | IsWindow(prices, 15 * k, t, f)
          ensures Average(prices, s, e) <= Average(prices, t, f)
          ensures t < s ==> Average(prices, s, e) < Average(prices, t, f)
        {
          WindowIsTheTask(task, quarters[t]);
          MeanOrder(mine, RunTotal(price, quarters[t], k), k);
          GridOrder(task, t, s);
        }
      }
    }
  }

  lemma RunsAreLong(task: ScheduleTask)
    requires WindowQuarters(task).Ok?
    ensures 0 < task.quarters <= |WindowQuarters(task).value|
  {
  }

  lemma GridOrder(task: ScheduleTask, i: nat, j: nat)
    requires WindowQuarters(task).Ok?
    requires i < |WindowQuarters(task).value| && j < |WindowQuarters(task).value|
    ensures WindowQuarters(task).value[i] < WindowQuarters(task).value[j] <==> i < j
  {
  }

  // --- The arms of one task ------------------------------------------------------------------------

  datatype Exclusion = NoRun | FullyPublished | MissingRealised | MissingForecast(index: nat) | MissingLastWeek | MissingLastPublishedDay

  type Cost = (real, int) -> real

  function Priced(cost: Cost, q: int, spot: Option<real>): Option<real> {
    if spot.Some? then Some(cost(spot.value, q)) else None
  }

  function RealisedCost(realised: map<int, real>, cost: Cost): Price {
    q => Priced(cost, q, Lookup(realised, q))
  }

  /** What an arm knows: the published prices before the origin and its own
      estimate from then on. */
  function ArmPrice(origin: int, published: QuarterMap, estimate: Price, cost: Cost): Price {
    q => Priced(cost, q, if q < origin then Lookup(published, Floor(q)) else estimate(q))
  }

  ghost predicate PublishedKnown(origin: int, published: QuarterMap, quarters: seq<int>) {
    forall i :: 0 <= i < |quarters| && quarters[i] < origin ==> Floor(quarters[i]) in published
  }

  ghost predicate EstimateKnown(origin: int, estimate: Price, quarters: seq<int>) {
    forall i :: 0 <= i < |quarters| && quarters[i] >= origin ==> estimate(quarters[i]).Some?
  }

  /** The start that one arm chooses, or why it cannot. */
  method Choose(task: ScheduleTask, origin: int, published: QuarterMap, estimate: Price, cost: Cost, missing: Exclusion)
    returns (r: Result<int, Exclusion>)
    requires WindowQuarters(task).Ok?
    ensures r.Ok? <==>
      (PublishedKnown(origin, published, WindowQuarters(task).value)
       && EstimateKnown(origin, estimate, WindowQuarters(task).value))
    ensures r.Ok? ==> IsCheapestStart(task, ArmPrice(origin, published, estimate, cost), r.value)
    ensures r.Err? ==>
      r.error == (if PublishedKnown(origin, published, WindowQuarters(task).value) then missing else MissingRealised)
  {
    hide WindowQuarters, IsCheapestStart;
    var price := ArmPrice(origin, published, estimate, cost);
    ghost var quarters := WindowQuarters(task).value;
    var start := CheapestStart(task, price);
    match start
    case Ok(s) =>
      r := Ok(s);
      assert AllKnown(price, quarters);
      forall i | 0 <= i < |quarters|
        ensures if quarters[i] < origin then Floor(quarters[i]) in published else estimate(quarters[i]).Some?
      {
        assert price(quarters[i]).Some?;
      }
    case Err(Infeasible) =>
      r := Err(NoRun);
    case Err(MissingQuarter(q)) =>
      r := Err(if q < origin then MissingRealised else missing);
      ghost var k: nat :| k < |quarters| && FirstUnknown(price, quarters, k) && q == quarters[k];
      assert price(quarters[k]).None?;
      if q >= origin {
        forall i | 0 <= i < |quarters| && quarters[i] < origin
          ensures Floor(quarters[i]) in published
        {
          WindowAscends(task, i, k);
          assert quarters[..k][i] == quarters[i];
        }
      }
  }

  lemma WindowAscends(task: ScheduleTask, i: nat, k: nat)
    requires WindowQuarters(task).Ok? && i < |WindowQuarters(task).value| && k < |WindowQuarters(task).value|
    ensures i < k || WindowQuarters(task).value[i] >= WindowQuarters(task).value[k]
  {
  }

  /** What one evaluation of the arms reads: the first quarter to forecast, the
      published prices before it, the predictions of the models, the two
      persistence baselines, the realised prices, and the cost of a quarter. */
  datatype Evaluation = Evaluation(
    origin: int, published: QuarterMap, predictions: seq<map<int, real>>,
    lastWeek: Price, lastPublishedDay: Price, realised: map<int, real>, cost: Cost)
  {
    function Arms(): nat {
      |predictions| + 2
    }

    function Estimate(arm: nat): Price
      requires arm < Arms()
    {
      if arm < |predictions| then q => Lookup(predictions[arm], q)
      else if arm == |predictions| then lastWeek
      else lastPublishedDay
    }

    function Missing(arm: nat): Exclusion
      requires arm < Arms()
    {
      if arm < |predictions| then MissingForecast(arm)
      else if arm == |predictions| then MissingLastWeek
      else MissingLastPublishedDay
    }

    function PriceOf(arm: nat): Price
      requires arm < Arms()
    {
      ArmPrice(origin, published, Estimate(arm), cost)
    }

    function Realised(): Price {
      RealisedCost(realised, cost)
    }

    ghost predicate Known(quarters: seq<int>, arms: nat)
      requires arms <= Arms()
    {
      forall a: nat :: a < arms ==> EstimateKnown(origin, Estimate(a), quarters)
    }
  }

  ghost predicate AllRealised(realised: map<int, real>, quarters: seq<int>) {
    forall i :: 0 <= i < |quarters| ==> quarters[i] in realised
  }

  /** Why a task is not scored: the first check that fails. */
  ghost predicate IsOutcome(e: Evaluation, task: ScheduleTask, r: Result<seq<real>, Exclusion>) {
    var window := WindowQuarters(task);
    if window.Err? then r == Err(NoRun)
    else if task.deadline <= e.origin then r == Err(FullyPublished)
    else if !AllRealised(e.realised, window.value) || !PublishedKnown(e.origin, e.published, window.value) then
      r == Err(MissingRealised)
    else if e.Known(window.value, e.Arms()) then r.Ok?
    else
      exists a: nat :: a < e.Arms() && e.Known(window.value, a)
        && !EstimateKnown(e.origin, e.Estimate(a), window.value) && r == Err(e.Missing(a))
  }

  /** The start of each arm: its own choice, the earliest start for the
      price-blind arm, and the cheapest realised start for hindsight. */
  ghost predicate AreStarts(e: Evaluation, task: ScheduleTask, starts: seq<int>) {
    && |starts| == e.Arms() + 2
    && (forall a: nat :: a < e.Arms() ==> IsCheapestStart(task, e.PriceOf(a), starts[a]))
    && starts[e.Arms()] == task.earliest
    && IsCheapestStart(task, e.Realised(), starts[e.Arms() + 1])
  }

  method ScheduleArms(e: Evaluation, task: ScheduleTask)
    returns (r: Result<seq<real>, Exclusion>, ghost starts: seq<int>)
    ensures IsOutcome(e, task, r)
    ensures r.Ok? ==>
      (task.quarters > 0 && AreStarts(e, task, starts) && |r.value| == |starts|
       && forall i: nat :: i < |starts| ==> r.value[i] == RunMean(e.Realised(), starts[i], task.quarters))
  {
    hide WindowQuarters, IsCheapestStart, PublishedKnown, EstimateKnown, RunMean;
    starts := [];
    var window := WindowQuarters(task);
    if window.Err? {
      return Err(NoRun), [];
    }
    var quarters := window.value;
    if task.deadline <= e.origin {
      return Err(FullyPublished), [];
    }
    if exists i :: 0 <= i < |quarters| && quarters[i] !in e.realised {
      return Err(MissingRealised), [];
    }
    var chosen: seq<int> := [];
    for a := 0 to e.Arms()
      invariant |chosen| == a && e.Known(quarters, a)
      invariant a > 0 ==> PublishedKnown(e.origin, e.published, quarters)
      invariant forall b: nat :: b < a ==> IsCheapestStart(task, e.PriceOf(b), chosen[b])
    {
      var start := Choose(task, e.origin, e.published, e.Estimate(a), e.cost, e.Missing(a));
      if start.Err? {
        return Err(start.error), [];
      }
      chosen := chosen + [start.value];
    }
    chosen := chosen + [task.earliest];
    var hindsight := CheapestStart(task, e.Realised());
    assert AllKnown(e.Realised(), quarters);
    chosen := chosen + [hindsight.value];
    starts := chosen;
    ArmsAreFeasible(e, task, starts);
    RunsAreLong(task);
    var costs: seq<real> := [];
    for i := 0 to |chosen|
      invariant |costs| == i
      invariant forall k: nat :: k < i ==> costs[k] == RunMean(e.Realised(), starts[k], task.quarters)
    {
      RunIsKnown(task, e.Realised(), chosen[i]);
      var mean := RunMeanPrice(chosen[i], task.quarters, e.Realised());
      costs := costs + [mean.value.value];
    }
    r := Ok(costs);
  }

  lemma RunIsKnown(task: ScheduleTask, price: Price, start: int)
    requires WindowQuarters(task).Ok? && AllKnown(price, WindowQuarters(task).value) && FeasibleStart(task, start)
    ensures task.quarters > 0 && AllKnown(price, Grid(start, task.quarters))
  {
    WindowIsTheTask(task, start);
    var quarters := WindowQuarters(task).value;
    var i: nat :| i + task.quarters <= |quarters| && quarters[i] == start;
    forall k | 0 <= k < task.quarters
      ensures price(Grid(start, task.quarters)[k]).Some?
    {
      assert price(quarters[i + k]).Some?;
    }
  }

  /** Every arm runs inside the window of the task. */
  lemma ArmsAreFeasible(e: Evaluation, task: ScheduleTask, starts: seq<int>)
    requires WindowQuarters(task).Ok? && AreStarts(e, task, starts)
    ensures forall i: nat :: i < |starts| ==> FeasibleStart(task, starts[i])
  {
    forall i: nat | i < |starts|
      ensures FeasibleStart(task, starts[i])
    {
      if i < e.Arms() {
        assert IsCheapestStart(task, e.PriceOf(i), starts[i]);
      } else if i == e.Arms() {
        WindowIsTheTask(task, task.earliest);
        assert WindowQuarters(task).value[0] == task.earliest;
      }
    }
  }

  /** No arm costs less than hindsight, so no regret is negative. */
  lemma RegretIsNotNegative(e: Evaluation, task: ScheduleTask, starts: seq<int>, i: nat)
    requires WindowQuarters(task).Ok? && AreStarts(e, task, starts) && i < |starts|
    ensures task.quarters > 0
    ensures RunMean(e.Realised(), starts[i], task.quarters) >= RunMean(e.Realised(), starts[e.Arms() + 1], task.quarters)
  {
    hide RunTotal;
    ArmsAreFeasible(e, task, starts);
    MeanOrder(RunTotal(e.Realised(), starts[e.Arms() + 1], task.quarters),
              RunTotal(e.Realised(), starts[i], task.quarters), task.quarters);
  }

  /** An arm whose prices are right everywhere in the window has no regret. */
  lemma ForesightHasNoRegret(e: Evaluation, task: ScheduleTask, starts: seq<int>, arm: nat)
    requires WindowQuarters(task).Ok? && AreStarts(e, task, starts) && arm < e.Arms()
    requires forall q :: Aligned(q) && task.earliest <= q < task.deadline ==> e.PriceOf(arm)(q) == e.Realised()(q)
    ensures starts[arm] == starts[e.Arms() + 1]
  {
    hide RunTotal;
    forall s | FeasibleStart(task, s)
      ensures RunTotal(e.PriceOf(arm), s, task.quarters) == RunTotal(e.Realised(), s, task.quarters)
    {
      SameRun(e.PriceOf(arm), e.Realised(), task, s, task.quarters);
    }
    assert IsCheapestStart(task, e.PriceOf(arm), starts[arm]);
    CheapestStartIsUnique(task, e.Realised(), starts[arm], starts[e.Arms() + 1]);
  }

  lemma RunQuarterInside(task: ScheduleTask, s: int, k: nat)
    requires FeasibleStart(task, s) && k < task.quarters
    ensures Aligned(s + k * QUARTER_MS) && task.earliest <= s + k * QUARTER_MS < task.deadline
  {
    assert k * QUARTER_MS + QUARTER_MS <= task.quarters * QUARTER_MS;
  }

  lemma {:induction false} SameRun(p: Price, q: Price, task: ScheduleTask, s: int, n: nat)
    requires FeasibleStart(task, s) && n <= task.quarters
    requires forall t :: Aligned(t) && task.earliest <= t < task.deadline ==> p(t) == q(t)
    ensures RunTotal(p, s, n) == RunTotal(q, s, n)
  {
    hide Aligned, FeasibleStart;
    if n > 0 {
      SameRun(p, q, task, s, n - 1);
      RunQuarterInside(task, s, n - 1);
    }
  }
}

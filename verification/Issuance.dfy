/** Issuance training: the examples that the earlier issuances of a run give. */
module Issuance {
  import opened Common
  import opened Features
  import opened Filtering
  import opened Grid
  import opened Ladders
  import opened Ordered
  import opened Publication
  import opened Quarters
  import opened Vintages

  const TRAINING_HISTORY_DAYS: int := 30
  const MAX_TRAINING_ISSUANCES: nat := 35
  const MINUTES_MAX: int := 2_147_483_647
  const MINUTES_MIN: int := -2_147_483_648

  datatype ForecastInput = ForecastInput(
    spot: QuarterMap, neighbours: NeighbourPrices,
    windForecast: seq<GridRecord>, windActual: seq<GridRecord>,
    consumptionForecast: seq<GridRecord>, consumptionActual: seq<GridRecord>,
    seriesStart: int, seriesEnd: int)

  datatype History = History(issuedAt: int, wind: seq<Vintage>, consumption: seq<Vintage>, zone: Zone)

  /** The rules of the features and of the grid series. */
  datatype Options = Options(rules: Rules, grid: GridRules)

  datatype InputSource = FromVintage(issuedAt: Option<int>) | Extension | Actual | Missing

  datatype LagAvailability = LagAvailability(fi1d: bool, fi7d: bool, fiPrevDay: bool, neighbours1d: nat, neighbours7d: nat)

  datatype Row = Row(features: seq<real>, wind: InputSource, consumption: InputSource, lags: LagAvailability)

  datatype TrainingExample = TrainingExample(
    issuedAt: int, seriesStart: int, target: int, leadMs: int, row: Row, realised: real)

  // --- The series start of an issuance ---------------------------------------------------------

  /** The end of the quarters whose prices are published at an issue time, at most
      the start of the run. */
  function PublishedEnd(issuedAt: int, zone: Zone, runStart: int): (end: Option<int>)
    ensures end.Some? && Aligned(runStart) ==> Aligned(end.value)
    ensures end.Some? ==> end.value <= runStart
  {
    var horizon := PublicationHorizon(issuedAt, zone);
    if horizon.None? then None
    else Some(if Floor(horizon.value) <= runStart then Floor(horizon.value) else runStart)
  }

  /** One quarter after the last published price, or the end of what can be
      published when there is none. */
  function SeriesStart(spot: QuarterMap, publishedEnd: int): (start: int)
    ensures Aligned(publishedEnd) ==> Aligned(start)
  {
    var last := LastBefore(spot, publishedEnd);
    if last.None? then publishedEnd else Offset(last.value, QUARTER_MS)
  }

  // --- The inputs of an issuance -----------------------------------------------------------------

  datatype IssuanceInputs = IssuanceInputs(
    issuedAt: int, seriesStart: int, seriesEnd: int,
    fi: QuarterMap, neighbours: NeighbourPrices,
    windForecast: seq<GridRecord>, windIssued: map<int, int>,
    consumptionForecast: seq<GridRecord>, consumptionIssued: map<int, int>,
    windActual: seq<GridRecord>, consumptionActual: seq<GridRecord>)
  {
    predicate HasGridData() {
      windForecast != [] || windActual != [] || consumptionForecast != [] || consumptionActual != []
    }
  }

  function Visible(m: QuarterMap, from: int, to: int): QuarterMap {
    map q | q in m && from <= q < to :: m[q]
  }

  function VisibleAreas(neighbours: NeighbourPrices, from: int, to: int): NeighbourPrices {
    map area | area in neighbours :: Visible(neighbours[area], from, to)
  }

  function StartsWithin(from: int, to: int): GridRecord -> bool {
    (r: GridRecord) => from <= r.start < to
  }

  ghost function RecordsOf(l: Ladder, issued: int, from: int, to: int): seq<GridRecord> {
    KeysInMap(l.byTarget);
    RecordsAsOf(l, issued, from, to, Ascending(l.byTarget.Keys))
  }

  ghost function IssuedOf(l: Ladder, issued: int, from: int, to: int): map<int, int> {
    KeysInMap(l.byTarget);
    IssuedByQuarter(l, issued, from, to, Ascending(l.byTarget.Keys))
  }

  /** What one issuance had: prices before its series start, the vintages issued
      before it, and the actuals that started before it. */
  ghost function InputsOf(input: ForecastInput, wind: Ladder, consumption: Ladder, issuedAt: int, start: int): IssuanceInputs {
    var end, from := Offset(start, FORECAST_DAYS * DAY_MS), Offset(start, -FLOOR_HISTORY_DAYS * DAY_MS);
    IssuanceInputs(
      issuedAt, start, end, Visible(input.spot, from, start), VisibleAreas(input.neighbours, from, start),
      RecordsOf(wind, issuedAt, from, end), IssuedOf(wind, issuedAt, from, end),
      RecordsOf(consumption, issuedAt, from, end), IssuedOf(consumption, issuedAt, from, end),
      Filter(StartsWithin(from, issuedAt), input.windActual),
      Filter(StartsWithin(from, issuedAt), input.consumptionActual))
  }

  method Reconstruct(input: ForecastInput, wind: Ladder, consumption: Ladder, issuedAt: int, start: int)
    returns (r: IssuanceInputs)
    ensures r == InputsOf(input, wind, consumption, issuedAt, start)
  {
    hide RecordsAsOf, IssuedByQuarter, Ascending, Filter;
    var end, from := Offset(start, FORECAST_DAYS * DAY_MS), Offset(start, -FLOOR_HISTORY_DAYS * DAY_MS);
    var windForecast, windIssued := AsOf(wind, issuedAt, from, end);
    var consumptionForecast, consumptionIssued := AsOf(consumption, issuedAt, from, end);
    r := IssuanceInputs(
      issuedAt, start, end, Visible(input.spot, from, start), VisibleAreas(input.neighbours, from, start),
      windForecast, windIssued, consumptionForecast, consumptionIssued,
      Filter(StartsWithin(from, issuedAt), input.windActual),
      Filter(StartsWithin(from, issuedAt), input.consumptionActual));
  }

  // --- The row of a target -------------------------------------------------------------------------

  function Source(q: int, forecast: QuarterMap, extended: QuarterMap, merged: QuarterMap, issued: Option<map<int, int>>): InputSource {
    if q in forecast then FromVintage(if issued.Some? && q in issued.value then Some(issued.value[q]) else None)
    else if q in extended then Extension
    else if q in merged then Actual
    else Missing
  }

  /** Hours at minute resolution. */
  function HoursBetween(from: int, to: int): real {
    var minutes := (to - from) / MINUTE_MS;
    (if minutes > MINUTES_MAX then MINUTES_MAX else if minutes < MINUTES_MIN then MINUTES_MIN else minutes) as real / 60.0
  }

  function Indicator(flag: bool): real {
    if flag then 1.0 else 0.0
  }

  function AreasWith(neighbours: NeighbourPrices, q: int, areas: seq<string>): nat {
    if areas == [] then 0
    else
      var n := |areas| - 1;
      AreasWith(neighbours, q, areas[..n]) + if areas[n] in neighbours && q in neighbours[areas[n]] then 1 else 0
  }

  function MissingFraction(present: nat): real {
    (if present >= |NEIGHBOUR_AREAS| then 0 else |NEIGHBOUR_AREAS| - present) as real / |NEIGHBOUR_AREAS| as real
  }

  function IsVintage(s: InputSource): bool {
    s.FromVintage?
  }

  /** The columns of issuance training: the lead, its products with the grid values,
      where these come from, and the marks of missing lags. */
  function ExtraColumns(lead: real, windMw: real, consumptionMw: real, wind: InputSource, consumption: InputSource,
                        lags: LagAvailability): (r: seq<real>)
    ensures |r| == 10
  {
    [lead, windMw * lead, consumptionMw * lead, Indicator(IsVintage(wind)), Indicator(IsVintage(consumption)),
     Indicator(!lags.fi1d), Indicator(!lags.fi7d), Indicator(!lags.fiPrevDay),
     MissingFraction(lags.neighbours1d), MissingFraction(lags.neighbours7d)]
  }

  /** The row of a target and what it was built from. */
  function ExampleRow(q: int, issuedMs: int, ctx: Context, index: PriceIndex, rules: Rules, grid: GridSeries,
                      windIssued: Option<map<int, int>>, consumptionIssued: Option<map<int, int>>): Row
  {
    var base := AssembleFeatures(q, ctx, index, rules);
    var lead := HoursBetween(issuedMs, q);
    var wind := Source(q, grid.wind.forecast, grid.wind.extended, grid.wind.merged, windIssued);
    var consumption := Source(q, grid.consumption.forecast, grid.consumption.extended, grid.consumption.merged, consumptionIssued);
    var dayAgo, weekAgo := Offset(q, -DAY_MS), Offset(q, -7 * DAY_MS);
    var previous := rules.previousDayStart(q);
    var lags := LagAvailability(
      dayAgo in ctx.fi, weekAgo in ctx.fi, previous.Some? && previous.value in index.stats,
      AreasWith(ctx.neighbours, dayAgo, NEIGHBOUR_AREAS), AreasWith(ctx.neighbours, weekAgo, NEIGHBOUR_AREAS));
    Row(base + ExtraColumns(lead, base[1], base[2], wind, consumption, lags), wind, consumption, lags)
  }

  /** What the rows of an issuance read, all of it built from its own inputs. */
  datatype View = View(inputs: IssuanceInputs, grid: GridSeries, index: PriceIndex)

  ghost function GridOf(inputs: IssuanceInputs, rules: GridRules): GridSeries {
    GridSeries(WindOf(inputs.windForecast, inputs.windActual, inputs.seriesEnd, rules),
               ConsumptionOf(inputs.consumptionForecast, inputs.consumptionActual, inputs.seriesEnd, rules))
  }

  ghost function ViewOf(inputs: IssuanceInputs, opts: Options): View {
    View(inputs, GridOf(inputs, opts.grid), IndexOf(inputs.fi, opts.rules))
  }

  function RowOf(v: View, rules: Rules, q: int): Row {
    ExampleRow(q, v.inputs.issuedAt, Context(v.inputs.fi, v.inputs.neighbours, v.grid.wind.merged, v.grid.consumption.merged), v.index, rules,
               v.grid, Some(v.inputs.windIssued), Some(v.inputs.consumptionIssued))
  }

  // --- The examples of an issuance --------------------------------------------------------------------

  datatype Outcome = Example(example: TrainingExample) | WithoutPrice | NoVintage | OutsideInput

  function OutcomeOf(spot: QuarterMap, v: View, rules: Rules, q: int): Outcome {
    if q !in spot then WithoutPrice
    else
      var row := RowOf(v, rules, q);
      if !row.wind.Missing? && !row.consumption.Missing? then
        Example(TrainingExample(v.inputs.issuedAt, v.inputs.seriesStart, q, q - v.inputs.issuedAt, row, spot[q]))
      else if (row.wind.Missing? && v.inputs.windIssued != map[]) || (row.consumption.Missing? && v.inputs.consumptionIssued != map[])
      then OutsideInput
      else NoVintage
  }

  datatype Tally = Tally(examples: nat, withoutPrice: nat, noVintage: nat, outsideInput: nat)

  function Counted(t: Tally, o: Outcome): Tally {
    match o
    case Example(_) => t.(examples := t.examples + 1)
    case WithoutPrice => t.(withoutPrice := t.withoutPrice + 1)
    case NoVintage => t.(noVintage := t.noVintage + 1)
    case OutsideInput => t.(outsideInput := t.outsideInput + 1)
  }

  /** The examples of the first n targets from start. */
  function ExamplesOf(spot: QuarterMap, v: View, rules: Rules, start: int, n: nat): seq<TrainingExample> {
    if n == 0 then []
    else
      var before := ExamplesOf(spot, v, rules, start, n - 1);
      var o := OutcomeOf(spot, v, rules, start + (n - 1) * QUARTER_MS);
      if o.Example? then before + [o.example] else before
  }

  function TallyOf(spot: QuarterMap, v: View, rules: Rules, start: int, n: nat): Tally {
    if n == 0 then Tally(0, 0, 0, 0)
    else Counted(TallyOf(spot, v, rules, start, n - 1), OutcomeOf(spot, v, rules, start + (n - 1) * QUARTER_MS))
  }

  function Later(a: int, b: int): int {
    if a >= b then a else b
  }

  function Earlier(a: int, b: int): int {
    if a <= b then a else b
  }

  /** The number of quarters in [from, to). */
  function QuartersIn(from: int, to: int): nat {
    if to <= from then 0 else (to - from + QUARTER_MS - 1) / QUARTER_MS
  }

  function FirstTarget(inputs: IssuanceInputs, windowStart: int): int {
    Later(inputs.seriesStart, windowStart)
  }

  function TargetCount(inputs: IssuanceInputs, windowStart: int, runStart: int): nat {
    QuartersIn(FirstTarget(inputs, windowStart), Earlier(inputs.seriesEnd, runStart))
  }

  method IssuanceExamples(spot: QuarterMap, opts: Options, inputs: IssuanceInputs, windowStart: int, runStart: int)
    returns (examples: seq<TrainingExample>, tally: Tally)
    requires Aligned(inputs.seriesStart) && Aligned(windowStart)
    ensures examples == ExamplesOf(spot, ViewOf(inputs, opts), opts.rules, FirstTarget(inputs, windowStart), TargetCount(inputs, windowStart, runStart))
    ensures tally == TallyOf(spot, ViewOf(inputs, opts), opts.rules, FirstTarget(inputs, windowStart), TargetCount(inputs, windowStart, runStart))
  {
    hide IndexOf, RowOf, ExampleRow, AssembleFeatures, WindOf, ConsumptionOf;
    var grid := BuildGridSeries(inputs.windForecast, inputs.windActual, inputs.consumptionForecast, inputs.consumptionActual,
                                inputs.seriesEnd, opts.grid);
    var index := BuildPriceIndex(inputs.fi, opts.rules);
    var view := View(inputs, grid, index);
    ghost var v := ViewOf(inputs, opts);
    examples, tally := [], Tally(0, 0, 0, 0);
    var q := Later(inputs.seriesStart, windowStart);
    var end := Earlier(inputs.seriesEnd, runStart);
    ghost var start, n := q, 0;
    while q < end
      invariant q == start + n * QUARTER_MS && n <= QuartersIn(start, end) && (q < end <==> n < QuartersIn(start, end))
      invariant examples == ExamplesOf(spot, v, opts.rules, start, n)
      invariant tally == TallyOf(spot, v, opts.rules, start, n)
      decreases end - q
    {
      if q in spot {
        var row := RowOf(view, opts.rules, q);
        var windMissing := row.wind.Missing?;
        var consumptionMissing := row.consumption.Missing?;
        if windMissing || consumptionMissing {
          if (windMissing && inputs.windIssued != map[]) || (consumptionMissing && inputs.consumptionIssued != map[]) {
            tally := tally.(outsideInput := tally.outsideInput + 1);
          } else {
            tally := tally.(noVintage := tally.noVintage + 1);
          }
        } else {
          examples := examples
            + [TrainingExample(inputs.issuedAt, inputs.seriesStart, q, q - inputs.issuedAt, row, spot[q])];
          tally := tally.(examples := tally.examples + 1);
        }
      } else {
        tally := tally.(withoutPrice := tally.withoutPrice + 1);
      }
      NextQuarter(start, n, end);
      q := Offset(q, QUARTER_MS);
      n := n + 1;
    }
  }

  lemma NextQuarter(start: int, n: nat, end: int)
    requires Aligned(start) && n < QuartersIn(start, end)
    ensures Offset(start + n * QUARTER_MS, QUARTER_MS) == start + (n + 1) * QUARTER_MS
    ensures start + (n + 1) * QUARTER_MS < end <==> n + 1 < QuartersIn(start, end)
  {
  }

  // --- The examples of a run ------------------------------------------------------------------------------

  datatype Summary = Summary(
    issuedAt: int, seriesStart: int, firstPrice: Option<int>, priceQuarters: nat,
    windTargets: nat, consumptionTargets: nat, hasGridData: bool, tally: Tally)

  datatype Examples = Examples(issuances: seq<Summary>, examples: seq<TrainingExample>)

  datatype Run = Run(input: ForecastInput, history: History) {
    function Start(): (q: int)
      ensures Aligned(q)
    {
      Floor(input.seriesStart)
    }

    function WindowStart(): (q: int)
      ensures Aligned(q)
    {
      Offset(Start(), -TRAINING_HISTORY_DAYS * DAY_MS)
    }

    function IssuedAt(k: nat): int {
      history.issuedAt - k * DAY_MS
    }

    /** The series start of the issuance k days before the run. */
    function SeriesStartOf(k: nat): (start: Option<int>)
      ensures start.Some? ==> Aligned(start.value)
    {
      var end := PublishedEnd(IssuedAt(k), history.zone, Start());
      if end.None? then None else Some(SeriesStart(input.spot, end.value))
    }
  }

  ghost function RunInputs(run: Run, k: nat, start: int): IssuanceInputs {
    InputsOf(run.input, LadderOf(run.history.wind, run.history.issuedAt),
             LadderOf(run.history.consumption, run.history.issuedAt), run.IssuedAt(k), start)
  }

  /** Only an issuance that has both grid data and prices gives examples. */
  ghost predicate Gives(inputs: IssuanceInputs) {
    inputs.HasGridData() && |inputs.fi| > 0
  }

  ghost function RunExamples(run: Run, opts: Options, k: nat, start: int): seq<TrainingExample> {
    var inputs := RunInputs(run, k, start);
    if !Gives(inputs) then []
    else ExamplesOf(run.input.spot, ViewOf(inputs, opts), opts.rules, FirstTarget(inputs, run.WindowStart()),
                    TargetCount(inputs, run.WindowStart(), run.Start()))
  }

  ghost function RunTally(run: Run, opts: Options, k: nat, start: int): Tally {
    var inputs := RunInputs(run, k, start);
    if !Gives(inputs) then Tally(0, 0, 0, 0)
    else TallyOf(run.input.spot, ViewOf(inputs, opts), opts.rules, FirstTarget(inputs, run.WindowStart()),
                 TargetCount(inputs, run.WindowStart(), run.Start()))
  }

  function FirstKey(m: QuarterMap): Option<int> {
    if m.Keys == {} then None else Some(Min(m.Keys))
  }

  function SummaryOf(inputs: IssuanceInputs, tally: Tally): Summary {
    Summary(inputs.issuedAt, inputs.seriesStart, FirstKey(inputs.fi), |inputs.fi|,
            |inputs.windIssued|, |inputs.consumptionIssued|, inputs.HasGridData(), tally)
  }

  /** The issuances from k on; the first one whose window ends before the training
      window ends the scan. */
  ghost function From(run: Run, opts: Options, k: nat): Examples
    decreases MAX_TRAINING_ISSUANCES + 1 - k
  {
    if k > MAX_TRAINING_ISSUANCES then Examples([], [])
    else
      var start := run.SeriesStartOf(k);
      if start.None? then From(run, opts, k + 1)
      else if Offset(start.value, FORECAST_DAYS * DAY_MS) <= run.WindowStart() then Examples([], [])
      else
        var rest := From(run, opts, k + 1);
        Examples([SummaryOf(RunInputs(run, k, start.value), RunTally(run, opts, k, start.value))] + rest.issuances,
                 RunExamples(run, opts, k, start.value) + rest.examples)
  }

  method BuildIssuanceExamples(run: Run, opts: Options) returns (r: Examples)
    ensures r == From(run, opts, 1)
  {
    hide From, ExamplesOf, TallyOf, InputsOf, ViewOf, LadderOf;
    var runStart, windowStart := run.Start(), run.WindowStart();
    var wind := NewLadder(run.history.wind, run.history.issuedAt);
    var consumption := NewLadder(run.history.consumption, run.history.issuedAt);
    LadderIsWhole(wind, run.history.wind, run.history.issuedAt);
    LadderIsWhole(consumption, run.history.consumption, run.history.issuedAt);
    var issuances: seq<Summary>, examples: seq<TrainingExample> := [], [];
    var k := 1;
    while k <= MAX_TRAINING_ISSUANCES
      invariant 1 <= k <= MAX_TRAINING_ISSUANCES + 1
      invariant issuances + From(run, opts, k).issuances == From(run, opts, 1).issuances
      invariant examples + From(run, opts, k).examples == From(run, opts, 1).examples
    {
      FromStep(run, opts, k);
      var start := run.SeriesStartOf(k);
      if start.None? {
        k := k + 1;
        continue;
      }
      if Offset(start.value, FORECAST_DAYS * DAY_MS) <= windowStart {
        break;
      }
      var inputs := Reconstruct(run.input, wind, consumption, run.IssuedAt(k), start.value);
      assert inputs == RunInputs(run, k, start.value);
      InputsStart(run, k, start.value);
      var tally := Tally(0, 0, 0, 0);
      if inputs.HasGridData() && |inputs.fi| > 0 {
        var more, counted := IssuanceExamples(run.input.spot, opts, inputs, windowStart, runStart);
        examples := examples + more;
        tally := counted;
      }
      issuances := issuances + [SummaryOf(inputs, tally)];
      k := k + 1;
    }
    FromStep(run, opts, k);
    r := Examples(issuances, examples);
  }

  lemma InputsStart(run: Run, k: nat, start: int)
    ensures RunInputs(run, k, start).seriesStart == start && RunInputs(run, k, start).issuedAt == run.IssuedAt(k)
  {
  }

  lemma FromStep(run: Run, opts: Options, k: nat)
    ensures k > MAX_TRAINING_ISSUANCES ==> From(run, opts, k) == Examples([], [])
    ensures k <= MAX_TRAINING_ISSUANCES ==>
      var start := run.SeriesStartOf(k);
      if start.None? then From(run, opts, k) == From(run, opts, k + 1)
      else if Offset(start.value, FORECAST_DAYS * DAY_MS) <= run.WindowStart() then From(run, opts, k) == Examples([], [])
      else
        && From(run, opts, k).issuances ==
             [SummaryOf(RunInputs(run, k, start.value), RunTally(run, opts, k, start.value))] + From(run, opts, k + 1).issuances
        && From(run, opts, k).examples == RunExamples(run, opts, k, start.value) + From(run, opts, k + 1).examples
  {
  }
}

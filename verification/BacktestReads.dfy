/** What the inputs of an issue time hold: every record of their windows and no other. */
module BacktestReads {
  import opened Common
  import opened Backtest
  import opened Filtering
  import opened Quarters
  import opened Vintages

  const DAY: int := 24 * 60 * 60 * 1000

  /** A price of the area that starts in [from, to), in the quarter. */
  ghost predicate HasPrice(prices: seq<PricePoint>, area: string, q: int, from: int, to: int) {
    exists p :: p in prices && p.area == area && from <= p.start < to && q <= p.start < q + 15 * 60 * 1000
  }

  lemma PricesInWindow(prices: seq<PricePoint>, from: int, to: int, area: string, q: int)
    requires Aligned(q)
    ensures q in SeriesOf(PricesIn(prices, from, to), area) <==> HasPrice(prices, area, q, from, to)
  {
    hide PricesIn, SeriesOf;
    PricesAreLastPoints(prices, from, to, area, q);
    forall p | p in prices && p.area == area && from <= p.start < to && q <= p.start < q + 15 * 60 * 1000
      ensures exists i :: 0 <= i < |prices| && Prices(prices[i], area, q, from, to)
    {
      var i :| 0 <= i < |prices| && prices[i] == p;
      FloorIs(p.start, q);
    }
    if i :| 0 <= i < |prices| && Prices(prices[i], area, q, from, to) {
      assert prices[i] in prices;
    }
  }

  lemma FloorIs(x: int, q: int)
    requires Aligned(q) && q <= x < q + QUARTER_MS
    ensures Floor(x) == q
  {
  }

  /** The origin is a quarter past the last FI price before the horizon, or the issue
      time without one. */
  lemma OriginFollowsPrices(d: BacktestData, t: int, mode: AsOfMode, horizon: int)
    ensures var origin := InputsAt(d, t, mode, horizon).origin;
      if exists p :: p in d.prices && p.area == "FI" && p.start < horizon
      then (exists p :: p in d.prices && p.area == "FI" && p.start < horizon && origin == p.start + 15 * 60 * 1000)
           && forall p :: p in d.prices && p.area == "FI" && p.start < horizon ==> p.start + 15 * 60 * 1000 <= origin
      else origin == t
  {
    var last := LastPublished(d.prices, horizon);
    hide LastPublished, PricesIn, SelectedIn, LadderIn, ActualsIn;
    if last.Some? {
      var p :| p in d.prices && p.area == FORECAST_AREA && p.start == last.value;
      assert p.start + 15 * 60 * 1000 == InputsAt(d, t, mode, horizon).origin;
    }
  }

  /** The served prices are those of the 30 days before the origin, the older ones those
      of the 34 days before them. */
  lemma PricesOfBothWindows(d: BacktestData, t: int, mode: AsOfMode, horizon: int, area: string, q: int)
    requires Aligned(q)
    ensures var i := InputsAt(d, t, mode, horizon);
      && (q in SeriesOf(i.prices, area) <==> HasPrice(d.prices, area, q, i.origin - 30 * DAY, i.origin))
      && (q in SeriesOf(i.olderPrices, area) <==> HasPrice(d.prices, area, q, i.origin - 64 * DAY, i.origin - 30 * DAY))
  {
    hide LastPublished, SelectedIn, LadderIn, ActualsIn, SeriesOf, HasPrice, PricesIn;
    var origin := InputsAt(d, t, mode, horizon).origin;
    PricesInWindow(d.prices, origin - 30 * DAY, origin, area, q);
    PricesInWindow(d.prices, origin - 64 * DAY, origin - 30 * DAY, area, q);
  }

  /** The actuals are those of the same windows that start before the issue time. */
  lemma ActualsOfBothWindows(d: BacktestData, t: int, mode: AsOfMode, horizon: int, id: int, r: GridActual)
    requires id in d.actuals
    ensures var i := InputsAt(d, t, mode, horizon);
      && id in i.actual && id in i.olderActual
      && (r in i.actual[id] <==>
            r in d.actuals[id] && i.origin - 30 * DAY <= r.start < t && r.start < i.origin + 3 * DAY)
      && (r in i.olderActual[id] <==>
            r in d.actuals[id] && i.origin - 64 * DAY <= r.start < i.origin - 30 * DAY && r.start < t)
  {
    hide LastPublished, SelectedIn, LadderIn, PricesIn, Filter;
  }

  /** The forecast holds the freshest vintage of every target from 30 days before the
      origin to 3 days after it, and the ladder holds all admitted vintages of them. */
  lemma TargetsOfTheWindow(d: BacktestData, t: int, mode: AsOfMode, horizon: int, id: int, v: Vintage)
    requires id in d.vintages
    ensures var i := InputsAt(d, t, mode, horizon);
      var bound := if mode.IssueTime? then Some(t) else None;
      var inside := i.origin - 30 * DAY <= v.start < i.origin + 3 * DAY;
      && id in i.forecast && id in i.forecastLadder
      && (v in i.forecast[id] <==> v in SelectedAsOf(d.vintages[id], bound) && inside)
      && (v in i.forecastLadder[id] <==> v in d.vintages[id] && inside && (mode.IssueTime? ==> v.issuedAt < t))
  {
    hide LastPublished, ActualsIn, PricesIn, SelectedAsOf, Filter;
  }

  // --- The leakage guard -----------------------------------------------------------------

  ghost predicate HoldsPrice(i: IssueTimeInputs, area: string, q: int) {
    || (area in i.prices.neighbours && q in i.prices.neighbours[area])
    || (area in i.olderPrices.neighbours && q in i.olderPrices.neighbours[area])
  }

  ghost predicate HoldsActual(i: IssueTimeInputs, id: int, start: int) {
    || (id in i.actual && exists r :: r in i.actual[id] && r.start == start)
    || (id in i.olderActual && exists r :: r in i.olderActual[id] && r.start == start)
  }

  ghost predicate HoldsVintage(vintages: map<int, seq<Vintage>>, id: int, issued: int) {
    id in vintages && exists v :: v in vintages[id] && v.issuedAt == issued
  }

  /** The time of an input that comes too late: a price at or after the origin, an
      actual or an issue time at or after the issue time asked for. */
  ghost predicate IsLate(i: IssueTimeInputs, source: InputSource, ms: int) {
    match source
    case FiPrice => (ms in i.prices.fi || ms in i.olderPrices.fi) && ms >= i.origin
    case NeighbourPrice(area) => HoldsPrice(i, area, ms) && ms >= i.origin
    case Actual(id) => HoldsActual(i, id, ms) && ms >= i.t
    case ForecastTarget(_) => false
    case ForecastVintage(id) => HoldsVintage(i.forecast, id, ms) && ms >= i.t
    case LadderVintage(id) => HoldsVintage(i.forecastLadder, id, ms) && ms >= i.t
  }

  /** For any inputs, reconstructed or not, the guard reports exactly the late times,
      each with the bound that it breaks. */
  lemma GuardReportsExactly(i: IssueTimeInputs, x: InputTimestamp)
    ensures x in LeakingInputs(i) <==>
      && IsLate(i, x.source, x.ms) && !x.forwardAllowed
      && x.boundary == Some(if x.source.FiPrice? || x.source.NeighbourPrice? then i.origin else i.t)
  {
    match x.source
    case FiPrice =>
    case NeighbourPrice(area) =>
    case Actual(id) =>
      ActualTimes(i.actual, i.t, x, id);
      ActualTimes(i.olderActual, i.t, x, id);
    case ForecastTarget(id) =>
    case ForecastVintage(id) =>
    case LadderVintage(id) =>
  }

  /** Only forecast targets may look forward, and the guard sees each of them. */
  lemma TargetsLookForward(i: IssueTimeInputs, x: InputTimestamp)
    ensures x in InputTimestamps(i) && x.forwardAllowed <==>
      && x.source.ForecastTarget? && x.forwardAllowed && x.boundary.None?
      && x.source.datasetId in i.forecast && exists v :: v in i.forecast[x.source.datasetId] && v.start == x.ms
  {
  }

  lemma ActualTimes(actual: map<int, seq<GridActual>>, t: int, x: InputTimestamp, id: int)
    requires x.source == Actual(id)
    ensures x in ActualTimestamps(actual, t) <==>
      x == InputTimestamp(Actual(id), x.ms, Some(t), false) && id in actual && exists r :: r in actual[id] && r.start == x.ms
  {
  }
}

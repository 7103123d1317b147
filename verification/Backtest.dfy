/** The issue-time inputs of the rolling-origin backtest. */
module Backtest {
  import opened Common
  import opened Filtering
  import opened Ordered
  import opened Quarters
  import opened Publication
  import opened Vintages

  const CORRECTION_HISTORY_DAYS: int := 34
  const FORECAST_AREA: string := "FI"

  datatype PricePoint = PricePoint(area: string, start: int, value: real)

  datatype GridActual = GridActual(datasetId: int, start: int, end: int, value: real)

  datatype BacktestData = BacktestData(
    prices: seq<PricePoint>,
    actuals: map<int, seq<GridActual>>,
    vintages: map<int, seq<Vintage>>)

  /** `IssueTime` admits vintages issued strictly before the issue time,
      `Latest` admits every vintage. */
  datatype AsOfMode = IssueTime | Latest

  /** Prices of one window: the FI series and the series of each other area. */
  datatype PriceMaps = PriceMaps(fi: QuarterMap, neighbours: map<string, QuarterMap>)

  datatype IssueTimeInputs = IssueTimeInputs(
    t: int,
    lastPublished: Option<int>,
    origin: int,
    prices: PriceMaps,
    forecast: map<int, seq<Vintage>>,
    forecastLadder: map<int, seq<Vintage>>,
    actual: map<int, seq<GridActual>>,
    olderPrices: PriceMaps,
    olderActual: map<int, seq<GridActual>>)

  datatype OutOfRange = OutOfRange

  datatype Window = Window(historyStart: int, seriesEnd: int)

  /** The read window of the served forecast: 30 days before the origin to 3 after. */
  function ServedWindow(origin: int): Window {
    Window(origin - FLOOR_HISTORY_DAYS * DAY_MS, origin + FORECAST_DAYS * DAY_MS)
  }

  /** The start of the older window, which only the quarter correction reads. */
  function OlderStart(historyStart: int): int {
    historyStart - CORRECTION_HISTORY_DAYS * DAY_MS
  }

  // --- Specification -------------------------------------------------------------------

  /** The last FI delivery start before the horizon. */
  function LastPublished(prices: seq<PricePoint>, horizon: int): (last: Option<int>)
    ensures last.Some? ==> last.value < horizon
    ensures last.Some? ==> exists p :: p in prices && p.area == FORECAST_AREA && p.start == last.value
    ensures forall p :: p in prices && p.area == FORECAST_AREA && p.start < horizon ==>
      last.Some? && p.start <= last.value
  {
    if prices == [] then None
    else
      var n := |prices| - 1;
      assert prices == prices[..n] + [prices[n]];
      var before := LastPublished(prices[..n], horizon);
      if prices[n].area == FORECAST_AREA && prices[n].start < horizon && (before.None? || prices[n].start > before.value)
      then Some(prices[n].start) else before
  }

  function Insert(m: PriceMaps, p: PricePoint): PriceMaps {
    var q := Floor(p.start);
    if p.area == FORECAST_AREA then m.(fi := m.fi[q := p.value])
    else
      var series := if p.area in m.neighbours then m.neighbours[p.area] else map[];
      m.(neighbours := m.neighbours[p.area := series[q := p.value]])
  }

  /** The prices that start in [from, to); a later point replaces an earlier
      one of its area in the same quarter. */
  function PricesIn(prices: seq<PricePoint>, from: int, to: int): PriceMaps {
    if prices == [] then PriceMaps(map[], map[])
    else
      var n := |prices| - 1;
      var before := PricesIn(prices[..n], from, to);
      if from <= prices[n].start < to then Insert(before, prices[n]) else before
  }

  function StartsIn(from: int, to: int): GridActual -> bool {
    (r: GridActual) => from <= r.start < to
  }

  function ActualsIn(actuals: map<int, seq<GridActual>>, from: int, to: int): map<int, seq<GridActual>> {
    map id | id in actuals :: Filter(StartsIn(from, to), actuals[id])
  }

  function TargetIn(from: int, to: int): Vintage -> bool {
    (v: Vintage) => from <= v.start < to
  }

  function AdmittedIn(bound: Option<int>, from: int, to: int): Vintage -> bool {
    (v: Vintage) => Admits(bound, v) && from <= v.start < to
  }

  function BoundOf(mode: AsOfMode, t: int): Option<int> {
    match mode case IssueTime => Some(t) case Latest => None
  }

  function OriginOf(last: Option<int>, t: int): int {
    if last.Some? then last.value + QUARTER_MS else t
  }

  function MinOf(a: int, b: int): int {
    if a <= b then a else b
  }

  /** One selected vintage per target of each dataset, for the targets of the window. */
  function SelectedIn(vintages: map<int, seq<Vintage>>, bound: Option<int>, w: Window): map<int, seq<Vintage>> {
    map id | id in vintages :: Filter(TargetIn(w.historyStart, w.seriesEnd), SelectedAsOf(vintages[id], bound))
  }

  /** Every admitted vintage of each dataset, for the targets of the window. */
  function LadderIn(vintages: map<int, seq<Vintage>>, bound: Option<int>, w: Window): map<int, seq<Vintage>> {
    map id | id in vintages :: Filter(AdmittedIn(bound, w.historyStart, w.seriesEnd), vintages[id])
  }

  /** The inputs with the horizon of the published prices. */
  ghost function InputsAt(data: BacktestData, t: int, mode: AsOfMode, horizon: int): IssueTimeInputs {
    var last := LastPublished(data.prices, horizon);
    var origin := OriginOf(last, t);
    var w := ServedWindow(origin);
    var actualEnd := MinOf(t, w.seriesEnd);
    IssueTimeInputs(
      t, last, origin,
      PricesIn(data.prices, w.historyStart, origin),
      SelectedIn(data.vintages, BoundOf(mode, t), w),
      LadderIn(data.vintages, BoundOf(mode, t), w),
      ActualsIn(data.actuals, w.historyStart, actualEnd),
      PricesIn(data.prices, OlderStart(w.historyStart), w.historyStart),
      ActualsIn(data.actuals, OlderStart(w.historyStart), MinOf(w.historyStart, actualEnd)))
  }

  ghost function Reconstructed(data: BacktestData, t: int, mode: AsOfMode, zone: Zone): Result<IssueTimeInputs, OutOfRange> {
    var horizon := PublicationHorizon(t, zone);
    if horizon.None? then Err(OutOfRange) else Ok(InputsAt(data, t, mode, horizon.value))
  }

  // --- The reconstruction ----------------------------------------------------------------

  method FindLastPublished(prices: seq<PricePoint>, horizon: int) returns (last: Option<int>)
    ensures last == LastPublished(prices, horizon)
  {
    last := None;
    for n := 0 to |prices|
      invariant last == LastPublished(prices[..n], horizon)
    {
      assert prices[..n + 1][..n] == prices[..n];
      var p := prices[n];
      if p.area == FORECAST_AREA && p.start < horizon && (last.None? || p.start > last.value) {
        last := Some(p.start);
      }
    }
    assert prices[..|prices|] == prices;
  }

  /** One pass over the prices fills the served and the older window. */
  method CollectPrices(prices: seq<PricePoint>, olderStart: int, historyStart: int, origin: int)
    returns (served: PriceMaps, older: PriceMaps)
    requires olderStart <= historyStart <= origin
    ensures served == PricesIn(prices, historyStart, origin)
    ensures older == PricesIn(prices, olderStart, historyStart)
  {
    served, older := PriceMaps(map[], map[]), PriceMaps(map[], map[]);
    for n := 0 to |prices|
      invariant served == PricesIn(prices[..n], historyStart, origin)
      invariant older == PricesIn(prices[..n], olderStart, historyStart)
    {
      assert prices[..n + 1][..n] == prices[..n];
      var p := prices[n];
      if historyStart <= p.start < origin {
        served := Insert(served, p);
      } else if olderStart <= p.start < historyStart {
        older := Insert(older, p);
      }
    }
    assert prices[..|prices|] == prices;
  }

  /** The selected vintages of every dataset, in the served window. */
  method SelectForecasts(vintages: map<int, seq<Vintage>>, bound: Option<int>, w: Window)
    returns (forecast: map<int, seq<Vintage>>)
    ensures forecast == SelectedIn(vintages, bound, w)
  {
    hide Filter;
    hide SelectedAsOf;
    hide Ascending;
    forecast := map[];
    var ids := Ascending(vintages.Keys);
    assert forall i :: 0 <= i < |ids| ==> ids[i] in ids;
    for n := 0 to |ids|
      invariant forall id :: id in forecast <==> id in ids[..n]
      invariant forall id :: id in forecast ==>
        (id in vintages && forecast[id] == Filter(TargetIn(w.historyStart, w.seriesEnd), SelectedAsOf(vintages[id], bound)))
    {
      var selected := SelectVintagesAsOf(vintages[ids[n]], bound);
      forecast := forecast[ids[n] := Filter(TargetIn(w.historyStart, w.seriesEnd), selected)];
    }
    assert ids[..|ids|] == ids;
    assert forall id :: id in forecast <==> id in vintages;
  }

  method ReconstructIssueTime(data: BacktestData, t: int, mode: AsOfMode, zone: Zone)
    returns (r: Result<IssueTimeInputs, OutOfRange>)
    ensures r == Reconstructed(data, t, mode, zone)
  {
    hide PublicationHorizon;
    hide LastPublished;
    hide PricesIn;
    hide SelectedIn;
    hide LadderIn;
    hide ActualsIn;
    var horizon := PublicationHorizon(t, zone);
    if horizon.None? {
      return Err(OutOfRange);
    }
    var last := FindLastPublished(data.prices, horizon.value);
    var origin := OriginOf(last, t);
    var w := ServedWindow(origin);
    var prices, olderPrices := CollectPrices(data.prices, OlderStart(w.historyStart), w.historyStart, origin);
    var forecast := SelectForecasts(data.vintages, BoundOf(mode, t), w);
    var actualEnd := MinOf(t, w.seriesEnd);
    r := Ok(IssueTimeInputs(
      t, last, origin, prices, forecast,
      LadderIn(data.vintages, BoundOf(mode, t), w),
      ActualsIn(data.actuals, w.historyStart, actualEnd),
      olderPrices,
      ActualsIn(data.actuals, OlderStart(w.historyStart), MinOf(w.historyStart, actualEnd))));
  }

  // --- What is known at the issue time -----------------------------------------------------

  /** A price point of the area in the window, for the quarter. */
  predicate Prices(p: PricePoint, area: string, q: int, from: int, to: int) {
    p.area == area && from <= p.start < to && Floor(p.start) == q
  }

  function SeriesOf(m: PriceMaps, area: string): QuarterMap {
    if area == FORECAST_AREA then m.fi else if area in m.neighbours then m.neighbours[area] else map[]
  }

  /** A quarter of a series holds the last price point of its area in the window,
      and every point of the window has its quarter. */
  lemma {:induction false} PricesAreLastPoints(prices: seq<PricePoint>, from: int, to: int, area: string, q: int)
    ensures var series := SeriesOf(PricesIn(prices, from, to), area);
      && (q in series <==> exists i :: 0 <= i < |prices| && Prices(prices[i], area, q, from, to))
      && (q in series ==> exists i :: 0 <= i < |prices| && IsLastPoint(prices, from, to, area, q, i) && series[q] == prices[i].value)
  {
    if prices != [] {
      hide Floor;
      var n := |prices| - 1;
      PricesAreLastPoints(prices[..n], from, to, area, q);
      if Prices(prices[n], area, q, from, to) {
        assert IsLastPoint(prices, from, to, area, q, n);
      } else if exists i :: 0 <= i < n && IsLastPoint(prices[..n], from, to, area, q, i) {
        var i :| 0 <= i < n && IsLastPoint(prices[..n], from, to, area, q, i);
        assert IsLastPoint(prices, from, to, area, q, i);
      }
    }
  }

  ghost predicate IsLastPoint(prices: seq<PricePoint>, from: int, to: int, area: string, q: int, i: int) {
    && 0 <= i < |prices| && Prices(prices[i], area, q, from, to)
    && forall j :: i < j < |prices| ==> !Prices(prices[j], area, q, from, to)
  }

  function PublishedBefore(horizon: int): PricePoint -> bool {
    (p: PricePoint) => p.start < horizon
  }

  function StartedBefore(t: int): GridActual -> bool {
    (r: GridActual) => r.start < t
  }

  /** The two datasets agree, in order, on the prices before the horizon, the
      actuals that started before t, and the vintages issued before t. */
  ghost predicate KnownAlike(d: BacktestData, e: BacktestData, t: int, horizon: int) {
    && Filter(PublishedBefore(horizon), d.prices) == Filter(PublishedBefore(horizon), e.prices)
    && d.actuals.Keys == e.actuals.Keys
    && (forall id :: id in d.actuals ==>
          Filter(StartedBefore(t), d.actuals[id]) == Filter(StartedBefore(t), e.actuals[id]))
    && d.vintages.Keys == e.vintages.Keys
    && (forall id :: id in d.vintages ==>
          Filter(AdmittedBy(Some(t)), d.vintages[id]) == Filter(AdmittedBy(Some(t)), e.vintages[id]))
  }

  /** No price that starts before `to` is at or after the horizon. */
  ghost predicate PublishedUpTo(prices: seq<PricePoint>, to: int, horizon: int) {
    forall p :: p in prices && p.start < to ==> p.start < horizon
  }

  lemma {:induction false} LastReadsPublished(prices: seq<PricePoint>, horizon: int)
    ensures LastPublished(prices, horizon) == LastPublished(Filter(PublishedBefore(horizon), prices), horizon)
  {
    if prices != [] {
      var front, last := prices[..|prices| - 1], prices[|prices| - 1];
      LastReadsPublished(front, horizon);
      var kept := Filter(PublishedBefore(horizon), front);
      assert (kept + [last])[..|kept|] == kept;
    }
  }

  lemma {:induction false} PricesReadPublished(prices: seq<PricePoint>, from: int, to: int, horizon: int)
    requires PublishedUpTo(prices, to, horizon)
    ensures PricesIn(prices, from, to) == PricesIn(Filter(PublishedBefore(horizon), prices), from, to)
  {
    if prices != [] {
      hide Insert;
      var front, last := prices[..|prices| - 1], prices[|prices| - 1];
      assert forall p :: p in front ==> p in prices;
      PricesReadPublished(front, from, to, horizon);
      var kept := Filter(PublishedBefore(horizon), front);
      assert (kept + [last])[..|kept|] == kept;
      assert last in prices;
    }
  }

  lemma ActualsReadKnown(d: map<int, seq<GridActual>>, e: map<int, seq<GridActual>>, t: int, from: int, to: int)
    requires d.Keys == e.Keys && to <= t
    requires forall id :: id in d ==> Filter(StartedBefore(t), d[id]) == Filter(StartedBefore(t), e[id])
    ensures ActualsIn(d, from, to) == ActualsIn(e, from, to)
  {
    forall id | id in d
      ensures Filter(StartsIn(from, to), d[id]) == Filter(StartsIn(from, to), e[id])
    {
      FilterOfFilter(StartsIn(from, to), StartedBefore(t), d[id]);
      FilterOfFilter(StartsIn(from, to), StartedBefore(t), e[id]);
    }
  }

  lemma VintagesReadKnown(d: map<int, seq<Vintage>>, e: map<int, seq<Vintage>>, t: int, w: Window)
    requires d.Keys == e.Keys
    requires forall id :: id in d ==> Filter(AdmittedBy(Some(t)), d[id]) == Filter(AdmittedBy(Some(t)), e[id])
    ensures SelectedIn(d, Some(t), w) == SelectedIn(e, Some(t), w)
    ensures LadderIn(d, Some(t), w) == LadderIn(e, Some(t), w)
  {
    hide Filter;
    hide SelectedAsOf;
    forall id | id in d
      ensures SelectedAsOf(d[id], Some(t)) == SelectedAsOf(e[id], Some(t))
      ensures Filter(AdmittedIn(Some(t), w.historyStart, w.seriesEnd), d[id])
           == Filter(AdmittedIn(Some(t), w.historyStart, w.seriesEnd), e[id])
    {
      SelectionReadsAdmitted(d[id], Some(t));
      SelectionReadsAdmitted(e[id], Some(t));
      FilterOfFilter(AdmittedIn(Some(t), w.historyStart, w.seriesEnd), AdmittedBy(Some(t)), d[id]);
      FilterOfFilter(AdmittedIn(Some(t), w.historyStart, w.seriesEnd), AdmittedBy(Some(t)), e[id]);
    }
  }

  /** Datasets that agree on what is known give the same inputs, when neither
      holds an unpublished price before the origin. */
  lemma KnownAlikeGivesSameInputs(d: BacktestData, e: BacktestData, t: int, horizon: int)
    requires KnownAlike(d, e, t, horizon)
    requires var origin := OriginOf(LastPublished(d.prices, horizon), t);
      PublishedUpTo(d.prices, origin, horizon) && PublishedUpTo(e.prices, origin, horizon)
    ensures InputsAt(d, t, IssueTime, horizon) == InputsAt(e, t, IssueTime, horizon)
  {
    hide PricesIn;
    hide LastPublished;
    hide ActualsIn;
    hide SelectedIn;
    hide LadderIn;
    hide Filter;
    LastReadsPublished(d.prices, horizon);
    LastReadsPublished(e.prices, horizon);
    var origin := OriginOf(LastPublished(d.prices, horizon), t);
    var w := ServedWindow(origin);
    var actualEnd := MinOf(t, w.seriesEnd);
    PricesReadPublished(d.prices, w.historyStart, origin, horizon);
    PricesReadPublished(e.prices, w.historyStart, origin, horizon);
    PricesReadPublished(d.prices, OlderStart(w.historyStart), w.historyStart, horizon);
    PricesReadPublished(e.prices, OlderStart(w.historyStart), w.historyStart, horizon);
    ActualsReadKnown(d.actuals, e.actuals, t, w.historyStart, actualEnd);
    ActualsReadKnown(d.actuals, e.actuals, t, OlderStart(w.historyStart), MinOf(w.historyStart, actualEnd));
    VintagesReadKnown(d.vintages, e.vintages, t, w);
  }

  ghost predicate QuarterAligned(data: BacktestData) {
    forall p :: p in data.prices ==> Aligned(p.start)
  }

  /** Aligned prices: none that starts before the origin is unpublished. */
  lemma AlignedIsPublished(data: BacktestData, t: int, horizon: int, last: Option<int>)
    requires QuarterAligned(data) && t < horizon
    requires last.Some? ==> last.value < horizon && Aligned(last.value)
    ensures PublishedUpTo(data.prices, OriginOf(last, t), horizon)
  {
    if last.Some? {
      forall p | p in data.prices && p.start < last.value + QUARTER_MS
        ensures p.start <= last.value
      {
        AlignedBelow(p.start, last.value);
      }
    }
  }

  lemma AlignedBelow(a: int, b: int)
    requires Aligned(a) && Aligned(b) && a < b + QUARTER_MS
    ensures a <= b
  {
  }

  /** Non-interference: with quarter-aligned prices, the inputs of an issue
      time depend only on what is known then. */
  lemma NonInterference(d: BacktestData, e: BacktestData, t: int, zone: Zone)
    requires Plausible(zone) && QuarterAligned(d) && QuarterAligned(e)
    requires PublicationHorizon(t, zone).Some? ==> KnownAlike(d, e, t, PublicationHorizon(t, zone).value)
    ensures Reconstructed(d, t, IssueTime, zone) == Reconstructed(e, t, IssueTime, zone)
  {
    var h := PublicationHorizon(t, zone);
    if h.Some? {
      HorizonAfterIssue(t, zone);
      LastReadsPublished(d.prices, h.value);
      LastReadsPublished(e.prices, h.value);
      var last := LastPublished(d.prices, h.value);
      AlignedIsPublished(d, t, h.value, last);
      AlignedIsPublished(e, t, h.value, last);
      KnownAlikeGivesSameInputs(d, e, t, h.value);
    }
  }

  /** Without the alignment: for any dataset with an issue time before the
      horizon, the inputs are the same for every dataset with the same known
      part exactly when the origin does not lie past the horizon. */
  lemma NonInterferenceExactly(d: BacktestData, t: int, horizon: int)
    requires t <= horizon
    ensures (forall e :: KnownAlike(d, e, t, horizon) ==>
               InputsAt(d, t, IssueTime, horizon) == InputsAt(e, t, IssueTime, horizon))
       <==> OriginOf(LastPublished(d.prices, horizon), t) <= horizon
  {
    var origin := OriginOf(LastPublished(d.prices, horizon), t);
    if origin <= horizon {
      forall e | KnownAlike(d, e, t, horizon)
        ensures InputsAt(d, t, IssueTime, horizon) == InputsAt(e, t, IssueTime, horizon)
      {
        KnownAlikeGivesSameInputs(d, e, t, horizon);
      }
    } else {
      var e := Interfering(d, t, horizon);
      assert KnownAlike(d, e, t, horizon);
    }
  }

  /** A price at the horizon itself, which is not published, changes the
      inputs when the origin lies past the horizon. */
  lemma Interfering(d: BacktestData, t: int, horizon: int) returns (e: BacktestData)
    requires t <= horizon < OriginOf(LastPublished(d.prices, horizon), t)
    ensures KnownAlike(d, e, t, horizon)
    ensures InputsAt(d, t, IssueTime, horizon) != InputsAt(e, t, IssueTime, horizon)
  {
    hide LastPublished, InputsAt, KnownAlike;
    var origin := OriginOf(LastPublished(d.prices, horizon), t);
    var from := ServedWindow(origin).historyStart;
    var neighbours := PricesIn(d.prices, from, origin).neighbours;
    var q := Floor(horizon);
    var value := if "SE1" in neighbours && q in neighbours["SE1"] then neighbours["SE1"][q] + 1.0 else 0.0;
    var p := PricePoint("SE1", horizon, value);
    e := d.(prices := d.prices + [p]);
    PushedAlike(d, p, t, horizon);
    PricesOfInputs(d, t, horizon);
    PricesOfInputs(e, t, horizon);
    PricesOfPush(d.prices, p, from, origin);
    hide PricesIn, Floor;
    var after := PricesIn(e.prices, from, origin).neighbours;
    assert "SE1" in after && q in after["SE1"] && after["SE1"][q] == value;
    assert after != neighbours;
  }

  /** Such data exist at every issue time: one FI price that starts a millisecond
      before the horizon moves the origin past it. */
  lemma PriceOffTheGridInterferes(t: int, zone: Zone, value: real) returns (e: BacktestData)
    requires Plausible(zone) && PublicationHorizon(t, zone).Some?
    ensures var horizon := PublicationHorizon(t, zone).value;
            var d := BacktestData([PricePoint(FORECAST_AREA, horizon - 1, value)], map[], map[]);
      && LastPublished(d.prices, horizon) == Some(horizon - 1)
      && KnownAlike(d, e, t, horizon)
      && Reconstructed(d, t, IssueTime, zone) != Reconstructed(e, t, IssueTime, zone)
  {
    hide InputsAt, KnownAlike, PublicationHorizon;
    var horizon := PublicationHorizon(t, zone).value;
    var d := BacktestData([PricePoint(FORECAST_AREA, horizon - 1, value)], map[], map[]);
    HorizonAfterIssue(t, zone);
    assert d.prices[0] in d.prices;
    e := Interfering(d, t, horizon);
  }

  /** A price at or after the horizon changes nothing that is known. */
  lemma PushedAlike(d: BacktestData, p: PricePoint, t: int, horizon: int)
    requires p.start >= horizon
    ensures var e := d.(prices := d.prices + [p]);
      KnownAlike(d, e, t, horizon) && LastPublished(e.prices, horizon) == LastPublished(d.prices, horizon)
  {
    FilterPush(PublishedBefore(horizon), d.prices, p);
    LastReadsPublished(d.prices, horizon);
    LastReadsPublished(d.prices + [p], horizon);
  }

  lemma PricesOfInputs(d: BacktestData, t: int, horizon: int)
    ensures var origin := OriginOf(LastPublished(d.prices, horizon), t);
      InputsAt(d, t, IssueTime, horizon).prices == PricesIn(d.prices, ServedWindow(origin).historyStart, origin)
  {
  }

  lemma PricesOfPush(prices: seq<PricePoint>, p: PricePoint, from: int, to: int)
    ensures PricesIn(prices + [p], from, to) ==
      if from <= p.start < to then Insert(PricesIn(prices, from, to), p) else PricesIn(prices, from, to)
  {
    assert (prices + [p])[..|prices|] == prices;
  }

  // --- The leakage guard -------------------------------------------------------------------

  datatype InputSource =
    | FiPrice
    | NeighbourPrice(area: string)
    | Actual(datasetId: int)
    | ForecastTarget(datasetId: int)
    | ForecastVintage(datasetId: int)
    | LadderVintage(datasetId: int)

  /** A time of the inputs, with the bound that the guard holds it against, if any. */
  datatype InputTimestamp = InputTimestamp(source: InputSource, ms: int, boundary: Option<int>, forwardAllowed: bool)

  function Bounded(source: InputSource, ms: int, boundary: int): InputTimestamp {
    InputTimestamp(source, ms, Some(boundary), false)
  }

  ghost function PriceTimestamps(prices: PriceMaps, origin: int): set<InputTimestamp> {
    (set q | q in prices.fi :: Bounded(FiPrice, q, origin))
    + (set area, q | area in prices.neighbours && q in prices.neighbours[area] :: Bounded(NeighbourPrice(area), q, origin))
  }

  ghost function ActualTimestamps(actual: map<int, seq<GridActual>>, t: int): set<InputTimestamp> {
    set id, r | id in actual && r in actual[id] :: Bounded(Actual(id), r.start, t)
  }

  /** Every timestamp of the inputs: prices are bounded by the origin, actuals
      and issue times by t, and only a forecast target may look forward. */
  ghost function InputTimestamps(i: IssueTimeInputs): set<InputTimestamp> {
    PriceTimestamps(i.prices, i.origin) + PriceTimestamps(i.olderPrices, i.origin)
    + ActualTimestamps(i.actual, i.t) + ActualTimestamps(i.olderActual, i.t)
    + (set id, v | id in i.forecast && v in i.forecast[id] :: InputTimestamp(ForecastTarget(id), v.start, None, true))
    + (set id, v | id in i.forecast && v in i.forecast[id] :: Bounded(ForecastVintage(id), v.issuedAt, i.t))
    + (set id, v | id in i.forecastLadder && v in i.forecastLadder[id] :: Bounded(LadderVintage(id), v.issuedAt, i.t))
  }

  predicate Leaks(x: InputTimestamp) {
    !x.forwardAllowed && x.boundary.Some? && x.ms >= x.boundary.value
  }

  ghost function LeakingInputs(i: IssueTimeInputs): set<InputTimestamp> {
    set x | x in InputTimestamps(i) && Leaks(x)
  }

  ghost predicate KeysBelow(m: PriceMaps, to: int) {
    && (forall q :: q in m.fi ==> q < to)
    && (forall area, q :: area in m.neighbours && q in m.neighbours[area] ==> q < to)
  }

  lemma InsertKeysBelow(m: PriceMaps, p: PricePoint, to: int)
    requires KeysBelow(m, to) && p.start < to
    ensures KeysBelow(Insert(m, p), to)
  {
    assert Floor(p.start) < to;
  }

  lemma {:induction false} PriceKeysInWindow(prices: seq<PricePoint>, from: int, to: int)
    ensures KeysBelow(PricesIn(prices, from, to), to)
  {
    if prices != [] {
      hide Insert;
      var n := |prices| - 1;
      PriceKeysInWindow(prices[..n], from, to);
      if prices[n].start < to {
        InsertKeysBelow(PricesIn(prices[..n], from, to), prices[n], to);
      }
    }
  }

  lemma PricesDoNotLeak(m: PriceMaps, origin: int)
    requires KeysBelow(m, origin)
    ensures forall x :: x in PriceTimestamps(m, origin) ==> !Leaks(x)
  {
  }

  lemma ActualsDoNotLeak(actuals: map<int, seq<GridActual>>, from: int, to: int, t: int)
    requires to <= t
    ensures forall x :: x in ActualTimestamps(ActualsIn(actuals, from, to), t) ==> !Leaks(x)
  {
    hide Filter;
  }

  /** A vintage of the served window that the mode admits although it was
      issued at or after t. */
  ghost predicate AdmitsLateVintage(data: BacktestData, t: int, mode: AsOfMode, w: Window) {
    exists id, v :: id in data.vintages && v in data.vintages[id]
      && w.historyStart <= v.start < w.seriesEnd && Admits(BoundOf(mode, t), v) && v.issuedAt >= t
  }

  lemma SelectedAreAdmitted(vs: seq<Vintage>, bound: Option<int>)
    ensures forall v :: v in SelectedAsOf(vs, bound) ==> v in vs && Admits(bound, v)
  {
    var r := SelectedAsOf(vs, bound);
    SelectionIsFreshest(vs, bound);
    forall v | v in r
      ensures v in vs && Admits(bound, v)
    {
      var i :| 0 <= i < |r| && r[i] == v;
      var k: nat :| k < |vs| && vs[k] == r[i] && IsFreshest(vs, bound, k);
    }
  }

  lemma LeakIsLate(data: BacktestData, t: int, mode: AsOfMode, w: Window, id: int, v: Vintage)
    requires id in data.vintages && v.issuedAt >= t
    requires v in SelectedIn(data.vintages, BoundOf(mode, t), w)[id] || v in LadderIn(data.vintages, BoundOf(mode, t), w)[id]
    ensures AdmitsLateVintage(data, t, mode, w)
  {
    hide SelectedAsOf;
    SelectedAreAdmitted(data.vintages[id], BoundOf(mode, t));
    assert v in data.vintages[id];
  }

  /** Inputs within their boundaries do not leak. */
  lemma WithinBoundaries(i: IssueTimeInputs)
    requires KeysBelow(i.prices, i.origin) && KeysBelow(i.olderPrices, i.origin)
    requires forall x :: x in ActualTimestamps(i.actual, i.t) ==> !Leaks(x)
    requires forall x :: x in ActualTimestamps(i.olderActual, i.t) ==> !Leaks(x)
    requires forall id, v :: id in i.forecast && v in i.forecast[id] ==> v.issuedAt < i.t
    requires forall id, v :: id in i.forecastLadder && v in i.forecastLadder[id] ==> v.issuedAt < i.t
    ensures LeakingInputs(i) == {}
  {
    hide PriceTimestamps;
    hide ActualTimestamps;
    PricesDoNotLeak(i.prices, i.origin);
    PricesDoNotLeak(i.olderPrices, i.origin);
    assert forall x :: x in InputTimestamps(i) ==> !Leaks(x);
  }

  lemma LateVintageLeaks(data: BacktestData, t: int, mode: AsOfMode, horizon: int)
    requires AdmitsLateVintage(data, t, mode, ServedWindow(InputsAt(data, t, mode, horizon).origin))
    ensures LeakingInputs(InputsAt(data, t, mode, horizon)) != {}
  {
    hide PricesIn;
    hide LastPublished;
    hide ActualsIn;
    hide SelectedIn;
    hide PriceTimestamps;
    hide ActualTimestamps;
    var i := InputsAt(data, t, mode, horizon);
    var w := ServedWindow(i.origin);
    var id, v :| id in data.vintages && v in data.vintages[id]
      && w.historyStart <= v.start < w.seriesEnd && Admits(BoundOf(mode, t), v) && v.issuedAt >= t;
    assert v in i.forecastLadder[id];
    assert Bounded(LadderVintage(id), v.issuedAt, t) in LeakingInputs(i);
  }

  /** The guard reports nothing exactly when no late vintage is admitted. */
  lemma LeaksAreLateVintages(data: BacktestData, t: int, mode: AsOfMode, horizon: int)
    ensures LeakingInputs(InputsAt(data, t, mode, horizon)) == {} <==>
      !AdmitsLateVintage(data, t, mode, ServedWindow(InputsAt(data, t, mode, horizon).origin))
  {
    hide PricesIn;
    hide LastPublished;
    hide ActualsIn;
    hide LeakingInputs;
    hide SelectedIn;
    hide LadderIn;
    hide AdmitsLateVintage;
    hide ActualTimestamps;
    var i := InputsAt(data, t, mode, horizon);
    var w := ServedWindow(i.origin);
    if AdmitsLateVintage(data, t, mode, w) {
      LateVintageLeaks(data, t, mode, horizon);
    } else {
      KeysOfVintageMaps(data.vintages, BoundOf(mode, t), w);
      PriceKeysInWindow(data.prices, w.historyStart, i.origin);
      PriceKeysInWindow(data.prices, OlderStart(w.historyStart), w.historyStart);
      ActualsDoNotLeak(data.actuals, w.historyStart, MinOf(t, w.seriesEnd), t);
      ActualsDoNotLeak(data.actuals, OlderStart(w.historyStart), MinOf(w.historyStart, MinOf(t, w.seriesEnd)), t);
      forall id, v | id in data.vintages && (v in i.forecast[id] || v in i.forecastLadder[id])
        ensures v.issuedAt < t
      {
        if v.issuedAt >= t {
          LeakIsLate(data, t, mode, w, id, v);
        }
      }
      WithinBoundaries(i);
    }
  }

  lemma KeysOfVintageMaps(vintages: map<int, seq<Vintage>>, bound: Option<int>, w: Window)
    ensures SelectedIn(vintages, bound, w).Keys == vintages.Keys
    ensures LadderIn(vintages, bound, w).Keys == vintages.Keys
  {
  }

  /** The inputs of an issue time never leak. */
  lemma IssueTimeNeverLeaks(data: BacktestData, t: int, zone: Zone)
    ensures var r := Reconstructed(data, t, IssueTime, zone);
      r.Ok? ==> LeakingInputs(r.value) == {}
  {
    var h := PublicationHorizon(t, zone);
    if h.Some? {
      LeaksAreLateVintages(data, t, IssueTime, h.value);
    }
  }
}

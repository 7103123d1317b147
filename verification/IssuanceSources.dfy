/** Where the grid values of a training row come from, and which targets lack one. */
module IssuanceSources {
  import opened Common
  import opened Features
  import opened Grid
  import opened Issuance
  import opened IssuanceTheorems
  import opened LadderBlindness
  import opened Ladders
  import opened LinearAlgebra
  import opened Ordered
  import opened Quarters
  import opened Tails
  import opened Vintages

  // --- The vintages known for a quarter --------------------------------------------------------

  /** The vintage is known at the issue time, and its target lies in the quarter. */
  predicate KnownFor(v: Vintage, issued: int, q: int) {
    v.issuedAt < issued && Floor(v.start) == q
  }

  ghost predicate HasVintage(vs: seq<Vintage>, issued: int, q: int) {
    exists v :: v in vs && KnownFor(v, issued, q)
  }

  /** The newest issue time of the vintages known for the quarter. */
  ghost predicate IsNewestIssue(vs: seq<Vintage>, issued: int, q: int, x: int) {
    && (exists v :: v in vs && KnownFor(v, issued, q) && v.issuedAt == x)
    && (forall v :: v in vs && KnownFor(v, issued, q) ==> v.issuedAt <= x)
  }

  /** A target has a newest vintage exactly when one is known, and none known is newer. */
  lemma {:induction false} NewestOfTarget(vs: seq<Vintage>, issued: int, t: int)
    ensures var p := PickLast(vs, issued, t);
      && (p.Some? ==> p.value in vs)
      && (forall v :: v in vs && v.start == t && v.issuedAt < issued ==> p.Some? && v.issuedAt <= p.value.issuedAt)
  {
    if vs != [] {
      var front, last := vs[..|vs| - 1], vs[|vs| - 1];
      NewestOfTarget(front, issued, t);
      assert vs == front + [last];
    }
  }

  lemma QuarterInside(t: int, q: int, from: int, to: int)
    requires Aligned(q) && Aligned(from) && Aligned(to) && from <= q < to
    ensures Floor(t) == q ==> from <= t < to
  {
  }

  /** The records of an issuance hold the quarter exactly when a vintage is known for it. */
  lemma RecordsOfKnown(vs: seq<Vintage>, limit: int, issued: int, from: int, to: int, q: int)
    requires issued <= limit && Aligned(q) && Aligned(from) && Aligned(to) && from <= q < to
    ensures (exists r :: r in RecordsOf(LadderOf(vs, limit), issued, from, to) && Floor(r.start) == q) <==>
      HasVintage(vs, issued, q)
  {
    hide LadderOf, IsLadderOf, RecordsAsOf, Ascending, Floor, Aligned;
    var l := LadderOf(vs, limit);
    var records := RecordsOf(l, issued, from, to);
    LadderIsWhole(l, vs, limit);
    forall r | r in records && Floor(r.start) == q
      ensures HasVintage(vs, issued, q)
    {
      assert r == GridRecord(r.start, r.value);
      LadderIsFreshest(l, vs, limit, issued, from, to, r.start, r.value);
      NewestOfTarget(vs, issued, r.start);
      assert KnownFor(PickLast(vs, issued, r.start).value, issued, q);
    }
    forall v | v in vs && KnownFor(v, issued, q)
      ensures exists r :: r in records && Floor(r.start) == q
    {
      QuarterInside(v.start, q, from, to);
      NewestOfTarget(vs, issued, v.start);
      var newest := PickLast(vs, issued, v.start).value;
      LadderIsFreshest(l, vs, limit, issued, from, to, v.start, newest.value);
      assert GridRecord(v.start, newest.value) in records;
    }
  }

  /** The issue time of a quarter is the newest one known for it. */
  lemma IssueOfKnown(vs: seq<Vintage>, limit: int, issued: int, from: int, to: int, q: int)
    requires issued <= limit && Aligned(q) && Aligned(from) && Aligned(to) && from <= q < to
    ensures var m := IssuedOf(LadderOf(vs, limit), issued, from, to);
      && (q in m <==> HasVintage(vs, issued, q))
      && (q in m ==> IsNewestIssue(vs, issued, q, m[q]))
  {
    hide LadderOf, IsLadderOf, IssuedByQuarter, Ascending, Floor, Aligned, Newest, NewestBefore;
    var l := LadderOf(vs, limit);
    var m, keys := IssuedOf(l, issued, from, to), Ascending(l.byTarget.Keys);
    LadderIsWhole(l, vs, limit);
    KeysInMap(l.byTarget);
    QuarterHasLatest(l, issued, from, to, keys, q);
    forall v | v in vs && KnownFor(v, issued, q)
      ensures q in m && v.issuedAt <= m[q]
    {
      QuarterInside(v.start, q, from, to);
      NewestOfTarget(vs, issued, v.start);
      NewestOfVintages(l, vs, limit, issued, v.start);
      NewestNeedsKey(l, issued, v.start);
      assert Reports(l, issued, from, to, v.start, q, PickLast(vs, issued, v.start).value.issuedAt);
    }
    if q in m {
      var t :| t in keys && Reports(l, issued, from, to, t, q, m[q]);
      NewestOfVintages(l, vs, limit, issued, t);
      NewestOfTarget(vs, issued, t);
      assert KnownFor(PickLast(vs, issued, t).value, issued, q);
    }
  }

  lemma NewestNeedsKey(l: Ladder, issued: int, t: int)
    ensures Newest(l, issued, t).Some? ==> t in l.byTarget
  {
  }

  // --- The marks of a row ----------------------------------------------------------------------------

  /** A source names a vintage exactly when one is known for the quarter, and then
      with the newest issue time. */
  ghost predicate NamesVintage(source: InputSource, vs: seq<Vintage>, issued: int, q: int) {
    && (source.FromVintage? <==> HasVintage(vs, issued, q))
    && (source.FromVintage? ==> source.issuedAt.Some? && IsNewestIssue(vs, issued, q, source.issuedAt.value))
  }

  lemma WindowIsAligned(start: int)
    requires Aligned(start)
    ensures Offset(start, FORECAST_DAYS * DAY_MS) == start + FORECAST_DAYS * DAY_MS
    ensures Offset(start, -FLOOR_HISTORY_DAYS * DAY_MS) == start - FLOOR_HISTORY_DAYS * DAY_MS
    ensures Aligned(start + FORECAST_DAYS * DAY_MS) && Aligned(start - FLOOR_HISTORY_DAYS * DAY_MS)
  {
  }

  lemma ForecastQuarters(records: seq<GridRecord>, q: int)
    ensures q in Bucketed(records) <==> exists r :: r in records && Floor(r.start) == q
  {
  }

  lemma SeriesForecast(forecast: QuarterMap, actual: QuarterMap, end: int, weeks: nat, gaps: GapRule)
    ensures SeriesOf(forecast, actual, end, weeks, gaps).forecast == forecast
  {
  }

  /** The source of a dataset of an issuance names its vintages. */
  lemma SourceNamesVintage(vs: seq<Vintage>, limit: int, issued: int, start: int, q: int, s: Series)
    requires issued <= limit && Aligned(start) && Aligned(q) && start <= q < start + FORECAST_DAYS * DAY_MS
    requires var from, to := Offset(start, -FLOOR_HISTORY_DAYS * DAY_MS), Offset(start, FORECAST_DAYS * DAY_MS);
      s.forecast == Bucketed(RecordsOf(LadderOf(vs, limit), issued, from, to))
    ensures var from, to := Offset(start, -FLOOR_HISTORY_DAYS * DAY_MS), Offset(start, FORECAST_DAYS * DAY_MS);
      var issues := IssuedOf(LadderOf(vs, limit), issued, from, to);
      NamesVintage(Source(q, s.forecast, s.extended, s.merged, Some(issues)), vs, issued, q)
  {
    hide LadderOf, RecordsOf, IssuedOf, Bucketed, HasVintage, IsNewestIssue, Offset, Aligned;
    WindowIsAligned(start);
    var from, to := start - FLOOR_HISTORY_DAYS * DAY_MS, start + FORECAST_DAYS * DAY_MS;
    ForecastQuarters(RecordsOf(LadderOf(vs, limit), issued, from, to), q);
    RecordsOfKnown(vs, limit, issued, from, to, q);
    IssueOfKnown(vs, limit, issued, from, to, q);
  }

  /** The sources of a row, and the series that they tell apart. */
  lemma RowSources(run: Run, opts: Options, k: nat, start: int, q: int)
    ensures var r := RunInputs(run, k, start);
      var row, v := RowOf(ViewOf(r, opts), opts.rules, q), ViewOf(r, opts);
      && v.grid.wind == WindOf(r.windForecast, r.windActual, r.seriesEnd, opts.grid)
      && v.grid.consumption == ConsumptionOf(r.consumptionForecast, r.consumptionActual, r.seriesEnd, opts.grid)
      && row.wind == Source(q, v.grid.wind.forecast, v.grid.wind.extended, v.grid.wind.merged, Some(r.windIssued))
      && row.consumption == Source(q, v.grid.consumption.forecast, v.grid.consumption.extended, v.grid.consumption.merged,
                                   Some(r.consumptionIssued))
  {
    hide Source, AssembleFeatures, InputsOf, WindOf, ConsumptionOf, IndexOf;
  }

  lemma RunRecords(run: Run, k: nat, start: int)
    ensures var r := RunInputs(run, k, start);
      var from, to := Offset(start, -FLOOR_HISTORY_DAYS * DAY_MS), Offset(start, FORECAST_DAYS * DAY_MS);
      var wind, consumption := LadderOf(run.history.wind, run.history.issuedAt), LadderOf(run.history.consumption, run.history.issuedAt);
      var issued := run.IssuedAt(k);
      && r.issuedAt == issued && r.seriesEnd == to
      && r.windForecast == RecordsOf(wind, issued, from, to) && r.windIssued == IssuedOf(wind, issued, from, to)
      && r.consumptionForecast == RecordsOf(consumption, issued, from, to)
      && r.consumptionIssued == IssuedOf(consumption, issued, from, to)
  {
    hide LadderOf, RecordsOf, IssuedOf, Offset;
  }

  /** A row is marked as built from a vintage exactly when the issuance knew one for
      the quarter, it names the newest issue time of those, and its lead columns are
      the hours from the issue time, alone and times each grid column. */
  lemma MarksNameVintages(run: Run, opts: Options, k: nat, start: int, q: int)
    requires Aligned(start) && Aligned(q) && start <= q < start + FORECAST_DAYS * DAY_MS
    ensures var row, issued := RowOf(ViewOf(RunInputs(run, k, start), opts), opts.rules, q), run.IssuedAt(k);
      && NamesVintage(row.wind, run.history.wind, issued, q)
      && NamesVintage(row.consumption, run.history.consumption, issued, q)
      && |row.features| == FEATURE_COUNT + 10
      && (row.features[24] == 1.0 <==> HasVintage(run.history.wind, issued, q))
      && (row.features[25] == 1.0 <==> HasVintage(run.history.consumption, issued, q))
      && row.features[21] == HoursBetween(issued, q)
      && row.features[22] == Times(row.features[1], row.features[21])
      && row.features[23] == Times(row.features[2], row.features[21])
  {
    hide LadderOf, RecordsOf, IssuedOf, Bucketed, Expanded, SeriesOf, Offset, HasVintage, IsNewestIssue, Source, RowOf, ViewOf, RunInputs,
         HoursBetween, Times;
    var r := RunInputs(run, k, start);
    RowSources(run, opts, k, start, q);
    RunRecords(run, k, start);
    ViewInputs(r, opts);
    var v := ViewOf(r, opts);
    LeadColumns(v, opts.rules, q);
    SeriesForecast(Bucketed(r.windForecast), Bucketed(r.windActual), r.seriesEnd, opts.grid.windWeeks, opts.grid.gaps);
    SeriesForecast(Bucketed(r.consumptionForecast), Expanded(Bucketed(r.consumptionActual)), r.seriesEnd,
                   opts.grid.consumptionWeeks, opts.grid.gaps);
    SourceNamesVintage(run.history.wind, run.history.issuedAt, run.IssuedAt(k), start, q, v.grid.wind);
    SourceNamesVintage(run.history.consumption, run.history.issuedAt, run.IssuedAt(k), start, q, v.grid.consumption);
  }

  /** A grid column and its source agree: the mean of the vintage records of the
      quarter, the mean of earlier weeks, the actual, or 0 without any. */
  ghost predicate ColumnReads(column: real, source: InputSource, forecast: QuarterMap, actual: QuarterMap, end: int, weeks: nat, q: int) {
    match source
    case FromVintage(_) => q in forecast && column == forecast[q]
    case Extension =>
      (q !in forecast
       && column == if forecast.Keys != {} && Max(forecast.Keys) < q < end && Held(actual, q, weeks) > 0
                    then LastWeeks(actual, q, weeks).Mean()
                    else NearestWeeks(actual, q, LookbackOf(weeks), weeks).Mean())
    case Actual => q !in forecast && q in actual && column == actual[q]
    case Missing => q !in forecast && q !in actual && column == 0.0
  }

  lemma SourceReads(forecast: QuarterMap, actual: QuarterMap, end: int, weeks: nat, gaps: GapRule, issues: map<int, int>, q: int)
    ensures var s := SeriesOf(forecast, actual, end, weeks, gaps);
      ColumnReads(ValueOr(s.merged, q, 0.0), Source(q, s.forecast, s.extended, s.merged, Some(issues)),
                  forecast, actual, end, weeks, q)
  {
    var s := SeriesOf(forecast, actual, end, weeks, gaps);
    MergedHolds(forecast, actual, end, weeks, gaps, q);
    SeriesForecast(forecast, actual, end, weeks, gaps);
    if q in s.merged {
      ValueComesFrom(forecast, actual, end, weeks, gaps, q);
    }
    hide SeriesOf, Max, LastWeeks, NearestWeeks, LookbackOf, Held;
  }

  lemma MergedHolds(forecast: QuarterMap, actual: QuarterMap, end: int, weeks: nat, gaps: GapRule, q: int)
    ensures var s := SeriesOf(forecast, actual, end, weeks, gaps);
      && (q in forecast || q in actual || q in s.extended ==> q in s.merged)
      && (q in forecast ==> q in s.extended)
  {
    hide FilledGaps, Extended, Max;
    if forecast.Keys != {} {
      assert IsExtended(Extended(forecast, actual, end, weeks), forecast, actual, Max(forecast.Keys), end, weeks);
    }
  }

  /** The two grid columns of a row read what its sources name. */
  lemma ColumnsReadSources(run: Run, opts: Options, k: nat, start: int, q: int)
    requires Aligned(q)
    ensures var r := RunInputs(run, k, start); var row := RowOf(ViewOf(r, opts), opts.rules, q);
      && |row.features| == FEATURE_COUNT + 10
      && ColumnReads(row.features[1], row.wind, Bucketed(r.windForecast), Bucketed(r.windActual),
                     r.seriesEnd, opts.grid.windWeeks, q)
      && ColumnReads(row.features[2], row.consumption, Bucketed(r.consumptionForecast), Expanded(Bucketed(r.consumptionActual)),
                     r.seriesEnd, opts.grid.consumptionWeeks, q)
  {
    var r := RunInputs(run, k, start);
    var v := ViewOf(r, opts);
    RowSources(run, opts, k, start, q);
    BaseColumns(v, opts.rules, q, 1);
    BaseColumns(v, opts.rules, q, 2);
    ColumnsOfRow(q, Context(v.inputs.fi, v.inputs.neighbours, v.grid.wind.merged, v.grid.consumption.merged), v.index, opts.rules);
    hide AssembleFeatures, RowOf, ViewOf, RunInputs, Bucketed, Expanded, SeriesOf, ColumnReads, Source, ValueOr;
    SourceReads(Bucketed(r.windForecast), Bucketed(r.windActual), r.seriesEnd, opts.grid.windWeeks, opts.grid.gaps, r.windIssued, q);
    SourceReads(Bucketed(r.consumptionForecast), Expanded(Bucketed(r.consumptionActual)), r.seriesEnd, opts.grid.consumptionWeeks,
                opts.grid.gaps, r.consumptionIssued, q);
  }

  // --- The lead and the marks of the lags ---------------------------------------------------------

  /** The lead in hours counts whole minutes, as far as 32 bits hold them. */
  lemma HoursCountMinutes(from: int, to: int, minutes: int)
    requires minutes * 60 * 1000 <= to - from < (minutes + 1) * 60 * 1000
    ensures -2_147_483_648 <= minutes <= 2_147_483_647 ==> HoursBetween(from, to) * 60.0 == minutes as real
    ensures minutes > 2_147_483_647 ==> HoursBetween(from, to) * 60.0 == 2_147_483_647.0
    ensures minutes < -2_147_483_648 ==> HoursBetween(from, to) * 60.0 == -2_147_483_648.0
  {
    assert (to - from) / MINUTE_MS == minutes;
  }

  /** Whether a neighbour area lacks a price of the issuance at a quarter. */
  function Lacks(v: View, area: string, q: int): nat {
    if area in v.inputs.neighbours && q in v.inputs.neighbours[area] then 0 else 1
  }

  lemma AreasCounted(neighbours: NeighbourPrices, q: int)
    ensures AreasWith(neighbours, q, NEIGHBOUR_AREAS)
         == (if "SE1" in neighbours && q in neighbours["SE1"] then 1 else 0)
          + (if "SE3" in neighbours && q in neighbours["SE3"] then 1 else 0)
          + (if "EE" in neighbours && q in neighbours["EE"] then 1 else 0)
  {
    var areas := NEIGHBOUR_AREAS;
    assert areas[..2] == ["SE1", "SE3"] && areas[..2][..1] == ["SE1"] && areas[..1] == ["SE1"] && areas[..1][..0] == [];
    assert AreasWith(neighbours, q, []) == 0;
    assert AreasWith(neighbours, q, ["SE1"]) == if "SE1" in neighbours && q in neighbours["SE1"] then 1 else 0;
    assert AreasWith(neighbours, q, ["SE1", "SE3"]) == AreasWith(neighbours, q, ["SE1"])
      + if "SE3" in neighbours && q in neighbours["SE3"] then 1 else 0;
  }

  lemma LagMarkColumns(v: View, rules: Rules, q: int)
    ensures |RowOf(v, rules, q).features| == FEATURE_COUNT + 10
    ensures var row, f := RowOf(v, rules, q), RowOf(v, rules, q).features;
      && f[28] == Indicator(!row.lags.fiPrevDay)
      && f[29] == MissingFraction(row.lags.neighbours1d) && f[30] == MissingFraction(row.lags.neighbours7d)
      && row.lags.neighbours1d == AreasWith(v.inputs.neighbours, Offset(q, -DAY_MS), NEIGHBOUR_AREAS)
      && row.lags.neighbours7d == AreasWith(v.inputs.neighbours, Offset(q, -WEEK_MS), NEIGHBOUR_AREAS)
      && (row.lags.fiPrevDay <==> rules.previousDayStart(q).Some? && rules.previousDayStart(q).value in v.index.stats)
  {
    hide AssembleFeatures, HoursBetween, Source, AreasWith, Offset, MissingFraction;
    var ctx := Context(v.inputs.fi, v.inputs.neighbours, v.grid.wind.merged, v.grid.consumption.merged);
    var base, row := AssembleFeatures(q, ctx, v.index, rules), RowOf(v, rules, q);
    var extra := ExtraColumns(HoursBetween(v.inputs.issuedAt, q), base[1], base[2], row.wind, row.consumption, row.lags);
    assert row.features == base + extra;
    assert row.lags.neighbours7d == AreasWith(v.inputs.neighbours, Offset(q, -7 * DAY_MS), NEIGHBOUR_AREAS);
    hide RowOf, ExampleRow;
    assert extra[7] == Indicator(!row.lags.fiPrevDay);
    assert extra[8] == MissingFraction(row.lags.neighbours1d) && extra[9] == MissingFraction(row.lags.neighbours7d);
    hide ExtraColumns;
    assert row.features[28] == extra[7] && row.features[29] == extra[8] && row.features[30] == extra[9];
  }

  lemma ThirdsMissing(present: nat)
    requires present <= 3
    ensures MissingFraction(present) * 3.0 == (3 - present) as real
  {
  }

  /** The last three marks: 1 exactly when no price of the issuance lies on the previous
      day, and the thirds of the neighbour areas without a price a day and a week before. */
  lemma LagsAreMarked(inputs: IssuanceInputs, opts: Options, q: int)
    requires Aligned(q)
    ensures var v, rules := ViewOf(inputs, opts), opts.rules;
      var f, day := RowOf(v, rules, q).features, rules.previousDayStart(q);
      && |f| == FEATURE_COUNT + 10
      && f[28] == (if day.Some? && exists p :: p in inputs.fi && rules.dayStart(p) == day then 0.0 else 1.0)
      && f[29] * 3.0 == (Lacks(v, "SE1", q - DAY_MS) + Lacks(v, "SE3", q - DAY_MS) + Lacks(v, "EE", q - DAY_MS)) as real
      && f[30] * 3.0 == (Lacks(v, "SE1", q - 7 * DAY_MS) + Lacks(v, "SE3", q - 7 * DAY_MS) + Lacks(v, "EE", q - 7 * DAY_MS)) as real
  {
    var v, day := ViewOf(inputs, opts), opts.rules.previousDayStart(q);
    LagMarkColumns(v, opts.rules, q);
    hide RowOf, AreasWith, IndexOf, GridOf, MissingFraction, Offset, Aligned;
    OffsetOfAligned(q, DAY_MS);
    OffsetOfAligned(q, WEEK_MS);
    AreasCounted(v.inputs.neighbours, q - DAY_MS);
    AreasCounted(v.inputs.neighbours, q - WEEK_MS);
    ThirdsMissing(AreasWith(v.inputs.neighbours, q - DAY_MS, NEIGHBOUR_AREAS));
    ThirdsMissing(AreasWith(v.inputs.neighbours, q - WEEK_MS, NEIGHBOUR_AREAS));
    if day.Some? {
      IndexIsDayStats(inputs.fi, opts.rules, day.value);
    }
  }

  // --- Which targets are examples -----------------------------------------------------------------------

  /** The dataset can give the quarter a value: a vintage is known for it, or an
      actual has it, or an actual has its weekday and time in a week of the lookback. */
  ghost predicate CanValue(vs: seq<Vintage>, issued: int, actual: QuarterMap, q: int, weeks: nat) {
    || HasVintage(vs, issued, q) || q in actual
    || exists w: nat :: 1 <= w <= LookbackOf(weeks) && WeeksBack(q, w) in actual
  }

  lemma SourceMissing(q: int, forecast: QuarterMap, actual: QuarterMap, end: int, weeks: nat, gaps: GapRule, issues: map<int, int>)
    ensures var s := SeriesOf(forecast, actual, end, weeks, gaps);
      Source(q, s.forecast, s.extended, s.merged, Some(issues)).Missing? <==> q !in s.merged
  {
    hide Extended, FilledGaps, Max, Min;
    if forecast.Keys != {} {
      assert IsExtended(Extended(forecast, actual, end, weeks), forecast, actual, Max(forecast.Keys), end, weeks);
    }
  }

  /** When gaps are filled from earlier weeks, a source is missing exactly when the
      dataset can give no value. */
  lemma MissingMeansNoData(vs: seq<Vintage>, limit: int, issued: int, start: int, q: int,
                           actual: QuarterMap, weeks: nat, issues: map<int, int>)
    requires issued <= limit && Aligned(start) && Aligned(q) && start <= q < start + FORECAST_DAYS * DAY_MS && weeks > 0
    ensures var from, to := Offset(start, -FLOOR_HISTORY_DAYS * DAY_MS), Offset(start, FORECAST_DAYS * DAY_MS);
      var s := SeriesOf(Bucketed(RecordsOf(LadderOf(vs, limit), issued, from, to)), actual, to, weeks, EarlierWeeks);
      Source(q, s.forecast, s.extended, s.merged, Some(issues)).Missing? <==> !CanValue(vs, issued, actual, q, weeks)
  {
    hide LadderOf, RecordsOf, Bucketed, SeriesOf, HasVintage, Offset, Aligned, WeeksBack, LookbackOf, Source;
    WindowIsAligned(start);
    var from, to := start - FLOOR_HISTORY_DAYS * DAY_MS, start + FORECAST_DAYS * DAY_MS;
    var records := RecordsOf(LadderOf(vs, limit), issued, from, to);
    ForecastQuarters(records, q);
    RecordsOfKnown(vs, limit, issued, from, to, q);
    MissingExactly(Bucketed(records), actual, to, weeks, q);
    SourceMissing(q, Bucketed(records), actual, to, weeks, EarlierWeeks, issues);
  }

  /** A target of an issuance is an example exactly when it has a price and both
      datasets can give it a value; so a target with a price is left out only when
      no vintage, no actual and no earlier week of a dataset has it. */
  lemma TargetsAreExamplesExactly(run: Run, opts: Options, k: nat, start: int, q: int)
    requires Aligned(start) && Aligned(q) && start <= q < start + FORECAST_DAYS * DAY_MS
    requires opts.grid.gaps.EarlierWeeks? && opts.grid.windWeeks > 0 && opts.grid.consumptionWeeks > 0
    ensures var r, issued := RunInputs(run, k, start), run.IssuedAt(k);
      OutcomeOf(run.input.spot, ViewOf(r, opts), opts.rules, q).Example? <==>
        && q in run.input.spot
        && CanValue(run.history.wind, issued, Bucketed(r.windActual), q, opts.grid.windWeeks)
        && CanValue(run.history.consumption, issued, Expanded(Bucketed(r.consumptionActual)), q, opts.grid.consumptionWeeks)
  {
    hide LadderOf, RecordsOf, IssuedOf, Bucketed, Expanded, SeriesOf, Offset, CanValue, Source, RowOf, ViewOf, RunInputs, OutcomeOf, Aligned;
    var r, issued := RunInputs(run, k, start), run.IssuedAt(k);
    RowSources(run, opts, k, start, q);
    RunRecords(run, k, start);
    ReasonsOfExclusion(run.input.spot, ViewOf(r, opts), opts.rules, q);
    MissingMeansNoData(run.history.wind, run.history.issuedAt, issued, start, q, Bucketed(r.windActual),
                       opts.grid.windWeeks, r.windIssued);
    MissingMeansNoData(run.history.consumption, run.history.issuedAt, issued, start, q, Expanded(Bucketed(r.consumptionActual)),
                       opts.grid.consumptionWeeks, r.consumptionIssued);
  }
}

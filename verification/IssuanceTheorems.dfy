/** What the examples of issuance training promise: each one forecasts, and its
    row is blind to everything after its issuance. */
module IssuanceTheorems {
  import opened Common
  import opened Features
  import opened Filtering
  import opened Grid
  import opened Issuance
  import opened LadderBlindness
  import opened Ladders
  import opened LinearAlgebra
  import opened Ordered
  import opened Publication
  import opened Quarters
  import opened Vintages

  // --- The examples of one issuance ------------------------------------------------------------

  /** The examples are exactly the example outcomes of the targets, in order. */
  lemma {:induction false} ExampleIsOutcome(spot: QuarterMap, v: View, rules: Rules, start: int, n: nat, e: TrainingExample)
    ensures e in ExamplesOf(spot, v, rules, start, n) <==>
      exists i: nat :: i < n && OutcomeOf(spot, v, rules, start + i * QUARTER_MS) == Example(e)
  {
    hide OutcomeOf;
    if n > 0 {
      ExampleIsOutcome(spot, v, rules, start, n - 1, e);
      if OutcomeOf(spot, v, rules, start + (n - 1) * QUARTER_MS) == Example(e) {
        assert n - 1 < n;
      }
    }
  }

  lemma OutcomeTarget(spot: QuarterMap, v: View, rules: Rules, q: int)
    ensures var o := OutcomeOf(spot, v, rules, q); o.Example? ==> o.example.target == q
  {
    hide RowOf;
  }

  ghost predicate AscendingTargets(es: seq<TrainingExample>, end: int) {
    && (forall i :: 0 <= i < |es| ==> es[i].target < end)
    && (forall i, j :: 0 <= i < j < |es| ==> es[i].target < es[j].target)
  }

  /** Targets ascend, so no target has two examples of one issuance. */
  lemma {:induction false} TargetsAscend(spot: QuarterMap, v: View, rules: Rules, start: int, n: nat)
    ensures AscendingTargets(ExamplesOf(spot, v, rules, start, n), start + n * QUARTER_MS)
  {
    if n > 0 {
      hide OutcomeOf;
      TargetsAscend(spot, v, rules, start, n - 1);
      OutcomeTarget(spot, v, rules, start + (n - 1) * QUARTER_MS);
    }
  }

  /** The four counters add up to the number of targets. */
  lemma {:induction false} TallyIsComplete(spot: QuarterMap, v: View, rules: Rules, start: int, n: nat)
    ensures var t := TallyOf(spot, v, rules, start, n);
      && t.examples + t.withoutPrice + t.noVintage + t.outsideInput == n
      && t.examples == |ExamplesOf(spot, v, rules, start, n)|
  {
    hide OutcomeOf;
    if n > 0 {
      TallyIsComplete(spot, v, rules, start, n - 1);
    }
  }

  /** The number of the first n targets with one kind of outcome. */
  ghost function Outcomes(kind: Outcome -> bool, spot: QuarterMap, v: View, rules: Rules, start: int, n: nat): nat {
    if n == 0 then 0
    else
      Outcomes(kind, spot, v, rules, start, n - 1)
      + if kind(OutcomeOf(spot, v, rules, start + (n - 1) * 15 * 60 * 1000)) then 1 else 0
  }

  /** Each counter is the number of targets with its outcome. */
  lemma {:induction false} TallyCountsOutcomes(spot: QuarterMap, v: View, rules: Rules, start: int, n: nat)
    ensures var t := TallyOf(spot, v, rules, start, n);
      && t.examples == Outcomes((o: Outcome) => o.Example?, spot, v, rules, start, n)
      && t.withoutPrice == Outcomes((o: Outcome) => o.WithoutPrice?, spot, v, rules, start, n)
      && t.noVintage == Outcomes((o: Outcome) => o.NoVintage?, spot, v, rules, start, n)
      && t.outsideInput == Outcomes((o: Outcome) => o.OutsideInput?, spot, v, rules, start, n)
  {
    hide OutcomeOf;
    if n > 0 {
      TallyCountsOutcomes(spot, v, rules, start, n - 1);
    }
  }

  /** What an issuance reads lies before its own end of knowledge: prices before
      its series start, issue times and actuals before the issue time. */
  lemma InputsAreKnown(run: Run, k: nat, start: int)
    ensures var r := RunInputs(run, k, start); var issued := run.IssuedAt(k);
      && (forall q :: q in r.fi <==> q in run.input.spot && Offset(start, -FLOOR_HISTORY_DAYS * DAY_MS) <= q < start)
      && (forall q :: q in r.fi ==> r.fi[q] == run.input.spot[q])
      && (forall a :: a in r.neighbours ==> a in run.input.neighbours && forall q :: q in r.neighbours[a] ==> q < start)
      && (forall q :: q in r.windIssued ==> r.windIssued[q] < issued)
      && (forall q :: q in r.consumptionIssued ==> r.consumptionIssued[q] < issued)
      && (forall x :: x in r.windActual <==>
            x in run.input.windActual && Offset(start, -FLOOR_HISTORY_DAYS * DAY_MS) <= x.start < issued)
      && (forall x :: x in r.consumptionActual <==>
            x in run.input.consumptionActual && Offset(start, -FLOOR_HISTORY_DAYS * DAY_MS) <= x.start < issued)
  {
    hide RecordsAsOf, IssuedByQuarter, Ascending;
    var wind := LadderOf(run.history.wind, run.history.issuedAt);
    var consumption := LadderOf(run.history.consumption, run.history.issuedAt);
    var end, from := Offset(start, FORECAST_DAYS * DAY_MS), Offset(start, -FLOOR_HISTORY_DAYS * DAY_MS);
    KeysInMap(wind.byTarget);
    KeysInMap(consumption.byTarget);
    ReportedIssuesAreInTime(wind, run.IssuedAt(k), from, end, Ascending(wind.byTarget.Keys));
    ReportedIssuesAreInTime(consumption, run.IssuedAt(k), from, end, Ascending(consumption.byTarget.Keys));
  }

  /** An example forecasts: its target is not before its series start, it lies in
      the forecast window of the issuance and in the training window of the run,
      and it is labelled with the price of the target. */
  lemma ExamplesForecast(run: Run, opts: Options, k: nat, start: int, e: TrainingExample)
    requires e in RunExamples(run, opts, k, start)
    ensures e.issuedAt == run.IssuedAt(k) && e.seriesStart == start
    ensures start <= e.target < Offset(start, FORECAST_DAYS * DAY_MS)
    ensures run.WindowStart() <= e.target < run.Start()
    ensures e.target in run.input.spot && e.realised == run.input.spot[e.target]
    ensures e.leadMs == e.target - e.issuedAt
    ensures e.row == RowOf(ViewOf(RunInputs(run, k, start), opts), opts.rules, e.target)
    ensures !e.row.wind.Missing? && !e.row.consumption.Missing?
  {
    hide RowOf, ViewOf, InputsOf, ExamplesOf;
    InputsStart(run, k, start);
    var inputs := RunInputs(run, k, start);
    InputsEnd(run, k, start);
    var first, n := FirstTarget(inputs, run.WindowStart()), TargetCount(inputs, run.WindowStart(), run.Start());
    ViewInputs(inputs, opts);
    ExampleIsOutcome(run.input.spot, ViewOf(inputs, opts), opts.rules, first, n, e);
    var i: nat :| i < n && OutcomeOf(run.input.spot, ViewOf(inputs, opts), opts.rules, first + i * QUARTER_MS) == Example(e);
    TargetInside(first, Earlier(inputs.seriesEnd, run.Start()), i);
  }

  /** An issuance gives an example of a quarter exactly when it has a grid record and a
      price, the quarter is in its forecast window and in the training window, and the
      quarter has a price and both grid values. */
  lemma TargetsOfIssuance(run: Run, opts: Options, k: nat, start: int, q: int)
    requires Aligned(start)
    ensures var r := RunInputs(run, k, start);
      (exists e :: e in RunExamples(run, opts, k, start) && e.target == q) <==>
        && (r.windForecast != [] || r.windActual != [] || r.consumptionForecast != [] || r.consumptionActual != [])
        && (exists p :: p in r.fi)
        && Aligned(q) && start <= q < start + 3 * 24 * 60 * 60 * 1000
        && run.Start() - 30 * 24 * 60 * 60 * 1000 <= q < run.Start()
        && OutcomeOf(run.input.spot, ViewOf(r, opts), opts.rules, q).Example?
  {
    hide RowOf, ViewOf, InputsOf, ExamplesOf, OutcomeOf, Run.WindowStart, Run.Start;
    InputsStart(run, k, start);
    InputsEnd(run, k, start);
    OffsetForward(start);
    WindowIsBack(run);
    var r := RunInputs(run, k, start);
    var v, first, n := ViewOf(r, opts), FirstTarget(r, run.WindowStart()), TargetCount(r, run.WindowStart(), run.Start());
    HasKey(r.fi);
    WindowIndex(first, Earlier(r.seriesEnd, run.Start()), q);
    if Gives(r) {
      forall e | e in RunExamples(run, opts, k, start) && e.target == q
        ensures exists i: nat :: i < n && q == first + i * QUARTER_MS && OutcomeOf(run.input.spot, v, opts.rules, q).Example?
      {
        ExampleIsOutcome(run.input.spot, v, opts.rules, first, n, e);
        var i: nat :| i < n && OutcomeOf(run.input.spot, v, opts.rules, first + i * QUARTER_MS) == Example(e);
        OutcomeTarget(run.input.spot, v, opts.rules, first + i * QUARTER_MS);
      }
      if i: nat :| i < n && q == first + i * QUARTER_MS && OutcomeOf(run.input.spot, v, opts.rules, q).Example? {
        var e := OutcomeOf(run.input.spot, v, opts.rules, q).example;
        OutcomeTarget(run.input.spot, v, opts.rules, q);
        ExampleIsOutcome(run.input.spot, v, opts.rules, first, n, e);
        assert e in RunExamples(run, opts, k, start);
      }
    }
  }

  lemma HasKey(m: QuarterMap)
    ensures |m| > 0 <==> exists p :: p in m
  {
    assert |m.Keys| == |m|;
    if |m| > 0 {
      var p := Element(m.Keys);
      assert p in m;
    }
  }

  lemma WindowIndex(from: int, to: int, q: int)
    requires Aligned(from)
    ensures (exists i: nat :: i < QuartersIn(from, to) && q == from + i * QUARTER_MS) <==> Aligned(q) && from <= q < to
  {
    if Aligned(q) && from <= q < to {
      var i := (q - from) / QUARTER_MS;
      assert (q - from) % QUARTER_MS == 0;
      assert q == from + i * QUARTER_MS && i < QuartersIn(from, to);
    }
    forall i: nat | i < QuartersIn(from, to) && q == from + i * QUARTER_MS
      ensures Aligned(q) && from <= q < to
    {
      TargetInside(from, to, i);
      assert (from + i * QUARTER_MS) % QUARTER_MS == from % QUARTER_MS;
    }
  }

  lemma InputsEnd(run: Run, k: nat, start: int)
    ensures RunInputs(run, k, start).seriesEnd == Offset(start, FORECAST_DAYS * DAY_MS)
  {
  }

  lemma ViewInputs(inputs: IssuanceInputs, opts: Options)
    ensures ViewOf(inputs, opts).inputs == inputs
  {
  }

  lemma TargetInside(from: int, to: int, i: nat)
    requires i < QuartersIn(from, to)
    ensures from <= from + i * QUARTER_MS < to
  {
  }

  // --- The examples of a run -------------------------------------------------------------------------

  /** Every example of a run comes from an issuance whole days before it. */
  lemma {:induction false} ExamplesHaveIssuance(run: Run, opts: Options, k: nat, e: TrainingExample) returns (j: nat)
    requires e in From(run, opts, k).examples
    ensures k <= j <= MAX_TRAINING_ISSUANCES && run.SeriesStartOf(j).Some?
    ensures e in RunExamples(run, opts, j, run.SeriesStartOf(j).value)
    decreases MAX_TRAINING_ISSUANCES + 1 - k
  {
    hide From, RunExamples, Run.SeriesStartOf, Run.WindowStart, Offset, SummaryOf, RunInputs, RunTally;
    FromStep(run, opts, k);
    if k <= MAX_TRAINING_ISSUANCES {
      var start := run.SeriesStartOf(k);
      if start.Some? && e in RunExamples(run, opts, k, start.value) {
        j := k;
      } else {
        j := ExamplesHaveIssuance(run, opts, k + 1, e);
      }
    }
  }

  /** The published quarters of an issuance end at its horizon, or at the start of the
      run where that is earlier. */
  lemma PublishedEndIsEarlier(issued: int, zone: Zone, runStart: int, end: int)
    requires PublishedEnd(issued, zone, runStart) == Some(end)
    ensures PublicationHorizon(issued, zone).Some?
    ensures var horizon := PublicationHorizon(issued, zone).value;
      && end <= runStart && end <= horizon && (end == runStart || (Aligned(end) && horizon < end + 15 * 60 * 1000))
  {
    hide PublicationHorizon;
  }

  /** The summary of an issuance: its times, its first price and their number, the
      quarters that a vintage names, whether it has grid records, and its counters. */
  lemma SummaryTells(inputs: IssuanceInputs, tally: Tally)
    ensures var s := SummaryOf(inputs, tally);
      && s.issuedAt == inputs.issuedAt && s.seriesStart == inputs.seriesStart && s.tally == tally
      && (s.firstPrice.None? <==> s.priceQuarters == 0)
      && (s.firstPrice.Some? ==> s.firstPrice.value in inputs.fi && forall q :: q in inputs.fi ==> s.firstPrice.value <= q)
      && s.priceQuarters == |inputs.fi.Keys|
      && s.windTargets == |inputs.windIssued.Keys| && s.consumptionTargets == |inputs.consumptionIssued.Keys|
      && (s.hasGridData <==> |inputs.windForecast| + |inputs.windActual| + |inputs.consumptionForecast| + |inputs.consumptionActual| > 0)
  {
    assert |inputs.fi| == |inputs.fi.Keys|;
    assert |inputs.windIssued| == |inputs.windIssued.Keys| && |inputs.consumptionIssued| == |inputs.consumptionIssued.Keys|;
    hide Min;
    assert forall q :: q in inputs.fi ==> q in inputs.fi.Keys;
  }

  /** The series start of an issuance is past every price published by then: no
      price of the input lies between it and the end of what is published. */
  lemma SeriesStartIsPastPublished(spot: QuarterMap, publishedEnd: int)
    requires forall q :: q in spot ==> Aligned(q)
    ensures forall q :: q in spot && q < publishedEnd ==> q < SeriesStart(spot, publishedEnd)
    ensures Aligned(publishedEnd) ==> SeriesStart(spot, publishedEnd) <= publishedEnd
    ensures SeriesStart(spot, publishedEnd) == publishedEnd || SeriesStart(spot, publishedEnd) - QUARTER_MS in spot
  {
    var last := LastBefore(spot, publishedEnd);
    if last.Some? {
      NextQuarter(last.value, publishedEnd);
    }
    hide Offset, LastBefore, Aligned;
  }

  lemma NextQuarter(q: int, end: int)
    requires Aligned(q) && q < end
    ensures Offset(q, QUARTER_MS) == q + QUARTER_MS
    ensures Aligned(end) ==> q + QUARTER_MS <= end
  {
  }

  /** Why a target is not an example: it has no price; or a value is missing, and
      no dataset with a missing value had a vintage at all; or one of them had. */
  lemma ReasonsOfExclusion(spot: QuarterMap, v: View, rules: Rules, q: int)
    ensures var o, row := OutcomeOf(spot, v, rules, q), RowOf(v, rules, q);
      var unused := (row.wind.Missing? ==> v.inputs.windIssued == map[])
        && (row.consumption.Missing? ==> v.inputs.consumptionIssued == map[]);
      && (o.WithoutPrice? <==> q !in spot)
      && (o.Example? <==> q in spot && !row.wind.Missing? && !row.consumption.Missing?)
      && (o.NoVintage? <==> q in spot && (row.wind.Missing? || row.consumption.Missing?) && unused)
  {
    hide RowOf;
  }

  // --- Marked fills ------------------------------------------------------------------------------

  lemma BaseColumns(v: View, rules: Rules, q: int, i: nat)
    requires i < FEATURE_COUNT
    ensures RowOf(v, rules, q).features[i] ==
      AssembleFeatures(q, Context(v.inputs.fi, v.inputs.neighbours, v.grid.wind.merged, v.grid.consumption.merged), v.index, rules)[i]
    ensures |RowOf(v, rules, q).features| == FEATURE_COUNT + 10
  {
    hide AssembleFeatures;
  }

  lemma IndicatorColumns(v: View, rules: Rules, q: int)
    ensures |RowOf(v, rules, q).features| == FEATURE_COUNT + 10
    ensures RowOf(v, rules, q).features[26] == Indicator(Offset(q, -DAY_MS) !in v.inputs.fi)
    ensures RowOf(v, rules, q).features[27] == Indicator(Offset(q, -7 * DAY_MS) !in v.inputs.fi)
  {
    hide AssembleFeatures, HoursBetween, Source, AreasWith, Offset;
    var ctx := Context(v.inputs.fi, v.inputs.neighbours, v.grid.wind.merged, v.grid.consumption.merged);
    var base, row := AssembleFeatures(q, ctx, v.index, rules), RowOf(v, rules, q);
    var extra := ExtraColumns(HoursBetween(v.inputs.issuedAt, q), base[1], base[2], row.wind, row.consumption, row.lags);
    assert row.features == base + extra;
    hide RowOf, ExampleRow;
    assert row.features[26] == extra[5] && row.features[27] == extra[6];
    hide ExtraColumns;
  }

  /** The other added columns: the lead and its products with the two grid columns,
      and a mark for each grid value that comes from a vintage. */
  lemma LeadColumns(v: View, rules: Rules, q: int)
    ensures |RowOf(v, rules, q).features| == FEATURE_COUNT + 10
    ensures var row, f := RowOf(v, rules, q), RowOf(v, rules, q).features;
      && f[21] == HoursBetween(v.inputs.issuedAt, q)
      && f[22] == Times(f[1], f[21]) && f[23] == Times(f[2], f[21])
      && f[24] == Indicator(row.wind.FromVintage?) && f[25] == Indicator(row.consumption.FromVintage?)
  {
    hide AssembleFeatures, HoursBetween, Source, AreasWith, Offset;
    var ctx := Context(v.inputs.fi, v.inputs.neighbours, v.grid.wind.merged, v.grid.consumption.merged);
    var base, row := AssembleFeatures(q, ctx, v.index, rules), RowOf(v, rules, q);
    var lead := HoursBetween(v.inputs.issuedAt, q);
    var extra := ExtraColumns(lead, base[1], base[2], row.wind, row.consumption, row.lags);
    assert row.features == base + extra;
    hide RowOf, ExampleRow;
    assert extra[1] == Times(base[1], lead) && extra[2] == Times(base[2], lead);
    hide ExtraColumns, Times;
    assert row.features[21] == extra[0] && row.features[22] == extra[1] && row.features[23] == extra[2];
    assert row.features[24] == extra[3] && row.features[25] == extra[4];
    assert row.features[1] == base[1] && row.features[2] == base[2];
  }

  /** A price lag that the issuance did not have is marked, and takes the neutral
      fill; a lag that is not marked is the price itself. */
  lemma MissingLagsAreMarked(v: View, rules: Rules, q: int)
    requires Aligned(q)
    ensures |RowOf(v, rules, q).features| == FEATURE_COUNT + 10
    ensures var row := RowOf(v, rules, q).features;
      && row[5] == ValueOr(v.inputs.fi, q - DAY_MS, v.index.neutral)
      && row[6] == ValueOr(v.inputs.fi, q - WEEK_MS, v.index.neutral)
      && (row[26] == 1.0 <==> q - DAY_MS !in v.inputs.fi) && (row[26] == 1.0 || row[26] == 0.0)
      && (row[27] == 1.0 <==> q - WEEK_MS !in v.inputs.fi) && (row[27] == 1.0 || row[27] == 0.0)
  {
    var ctx := Context(v.inputs.fi, v.inputs.neighbours, v.grid.wind.merged, v.grid.consumption.merged);
    ColumnsOfRow(q, ctx, v.index, rules);
    IndicatorColumns(v, rules, q);
    BaseColumns(v, rules, q, 5);
    BaseColumns(v, rules, q, 6);
    OffsetOfAligned(q, DAY_MS);
    OffsetOfAligned(q, WEEK_MS);
    hide RowOf, AssembleFeatures;
  }

  /** A target past the known days has its day lag marked as missing: an issuance
      never reads a price at or after its series start. */
  lemma LateLagsAreMissing(run: Run, opts: Options, k: nat, start: int, q: int)
    requires Aligned(q) && q - DAY_MS >= start
    ensures var row := RowOf(ViewOf(RunInputs(run, k, start), opts), opts.rules, q).features;
      |row| == FEATURE_COUNT + 10 && row[26] == 1.0
      && row[5] == ViewOf(RunInputs(run, k, start), opts).index.neutral
  {
    hide RowOf, ViewOf, RunInputs;
    ViewInputs(RunInputs(run, k, start), opts);
    InputsAreKnown(run, k, start);
    MissingLagsAreMarked(ViewOf(RunInputs(run, k, start), opts), opts.rules, q);
  }

  // --- Blindness -----------------------------------------------------------------------------------------

  function StartsBefore(issued: int): GridRecord -> bool {
    (r: GridRecord) => r.start < issued
  }

  /** Two runs agree on all that the issuance k days before knew: the prices
      before the end of its published quarters, the neighbour prices before its
      series start, the actuals that start before it, the vintages issued before
      it. They may differ in everything else. */
  ghost predicate KnownAlike(run: Run, other: Run, k: nat) {
    && run.history.issuedAt == other.history.issuedAt && run.history.zone == other.history.zone
    && run.Start() == other.Start()
    && var issued := run.IssuedAt(k);
       var end := PublishedEnd(issued, run.history.zone, run.Start());
       end.Some? ==>
         && (forall q :: q < end.value ==> Lookup(run.input.spot, q) == Lookup(other.input.spot, q))
         && run.input.neighbours.Keys == other.input.neighbours.Keys
         && (forall a, q :: a in run.input.neighbours && q < SeriesStart(run.input.spot, end.value) ==>
               Lookup(run.input.neighbours[a], q) == Lookup(other.input.neighbours[a], q))
         && Filter(StartsBefore(issued), run.input.windActual) == Filter(StartsBefore(issued), other.input.windActual)
         && Filter(StartsBefore(issued), run.input.consumptionActual) == Filter(StartsBefore(issued), other.input.consumptionActual)
         && Filter(AdmittedBy(Some(issued)), run.history.wind) == Filter(AdmittedBy(Some(issued)), other.history.wind)
         && Filter(AdmittedBy(Some(issued)), run.history.consumption) == Filter(AdmittedBy(Some(issued)), other.history.consumption)
  }

  lemma SeriesStartIsBlind(spot: QuarterMap, spot': QuarterMap, end: int)
    requires forall q :: q < end ==> Lookup(spot, q) == Lookup(spot', q)
    ensures SeriesStart(spot, end) == SeriesStart(spot', end)
  {
    var a, b := LastBefore(spot, end), LastBefore(spot', end);
    if a.Some? {
      assert Lookup(spot, a.value) == Lookup(spot', a.value);
    }
    if b.Some? {
      assert Lookup(spot, b.value) == Lookup(spot', b.value);
    }
  }

  lemma SeriesStartIsEarly(spot: QuarterMap, end: int)
    requires Aligned(end) && forall q :: q in spot ==> Aligned(q)
    ensures SeriesStart(spot, end) <= end
  {
  }

  lemma VisibleIsBlind(m: QuarterMap, m': QuarterMap, from: int, to: int)
    requires forall q :: q < to ==> Lookup(m, q) == Lookup(m', q)
    ensures Visible(m, from, to) == Visible(m', from, to)
  {
    var a, b := Visible(m, from, to), Visible(m', from, to);
    forall q: int
      ensures q in a <==> q in b
      ensures q in a && q in b ==> a[q] == b[q]
    {
      if q < to {
        assert Lookup(m, q) == Lookup(m', q);
      }
    }
    SameLookup(a, b);
  }

  lemma ActualsAreBlind(records: seq<GridRecord>, records': seq<GridRecord>, from: int, issued: int)
    requires Filter(StartsBefore(issued), records) == Filter(StartsBefore(issued), records')
    ensures Filter(StartsWithin(from, issued), records) == Filter(StartsWithin(from, issued), records')
  {
    FilterOfFilter(StartsWithin(from, issued), StartsBefore(issued), records);
    FilterOfFilter(StartsWithin(from, issued), StartsBefore(issued), records');
  }

  lemma LaddersAreBlind(vs: seq<Vintage>, vs': seq<Vintage>, limit: int, issued: int, from: int, to: int)
    requires issued <= limit
    requires Filter(AdmittedBy(Some(issued)), vs) == Filter(AdmittedBy(Some(issued)), vs')
    ensures RecordsOf(LadderOf(vs, limit), issued, from, to) == RecordsOf(LadderOf(vs', limit), issued, from, to)
    ensures IssuedOf(LadderOf(vs, limit), issued, from, to) == IssuedOf(LadderOf(vs', limit), issued, from, to)
  {
    hide LadderOf, IsLadderOf, Newest, RecordsAsOf, IssuedByQuarter;
    var l, l' := LadderOf(vs, limit), LadderOf(vs', limit);
    LadderIsWhole(l, vs, limit);
    LadderIsWhole(l', vs', limit);
    forall t
      ensures Newest(l, issued, t) == Newest(l', issued, t)
    {
      NewestIsBlind(l, vs, limit, l', vs', limit, issued, t);
    }
    RecordsAreBlind(l, l', issued, from, to);
    QuartersAreBlind(l, l', issued, from, to);
  }

  /** An issuance has the same inputs in both runs. */
  lemma InputsAreBlind(run: Run, other: Run, k: nat, start: int)
    requires KnownAlike(run, other, k) && run.SeriesStartOf(k) == Some(start)
    requires forall q :: q in run.input.spot ==> Aligned(q)
    ensures other.SeriesStartOf(k) == Some(start)
    ensures RunInputs(run, k, start) == RunInputs(other, k, start)
  {
    hide LadderOf, RecordsOf, IssuedOf, Filter, Visible, PublishedEnd, SeriesStart, Offset;
    var issued := run.IssuedAt(k);
    var publishedEnd := PublishedEnd(issued, run.history.zone, run.Start()).value;
    var end, from := Offset(start, FORECAST_DAYS * DAY_MS), Offset(start, -FLOOR_HISTORY_DAYS * DAY_MS);
    SeriesStartIsBlind(run.input.spot, other.input.spot, publishedEnd);
    SeriesStartIsEarly(run.input.spot, publishedEnd);
    VisibleIsBlind(run.input.spot, other.input.spot, from, start);
    NeighboursAreBlind(run.input.neighbours, other.input.neighbours, from, start);
    ActualsAreBlind(run.input.windActual, other.input.windActual, from, issued);
    ActualsAreBlind(run.input.consumptionActual, other.input.consumptionActual, from, issued);
    LaddersAreBlind(run.history.wind, other.history.wind, run.history.issuedAt, issued, from, end);
    LaddersAreBlind(run.history.consumption, other.history.consumption, run.history.issuedAt, issued, from, end);
  }

  lemma NeighboursAreBlind(areas: NeighbourPrices, areas': NeighbourPrices, from: int, to: int)
    requires areas.Keys == areas'.Keys
    requires forall a, q :: a in areas && q < to ==> Lookup(areas[a], q) == Lookup(areas'[a], q)
    ensures VisibleAreas(areas, from, to) == VisibleAreas(areas', from, to)
  {
    hide Visible;
    forall a | a in areas
      ensures a in areas' && Visible(areas[a], from, to) == Visible(areas'[a], from, to)
    {
      assert a in areas.Keys && a in areas'.Keys;
      VisibleIsBlind(areas[a], areas'[a], from, to);
    }
    forall a | a in areas'
      ensures a in areas
    {
      assert a in areas'.Keys;
    }
  }

  /** Every row of the issuance is the same in both runs, for any target. */
  lemma RowsAreBlind(run: Run, other: Run, opts: Options, k: nat, start: int, q: int)
    requires KnownAlike(run, other, k) && run.SeriesStartOf(k) == Some(start)
    requires forall q :: q in run.input.spot ==> Aligned(q)
    ensures RowOf(ViewOf(RunInputs(run, k, start), opts), opts.rules, q)
         == RowOf(ViewOf(RunInputs(other, k, start), opts), opts.rules, q)
  {
    hide RowOf, ViewOf, RunInputs, KnownAlike, Run.SeriesStartOf;
    InputsAreBlind(run, other, k, start);
  }

  /** An example changes at most its label when everything after its issuance
      changes, as long as the target still has a price. */
  lemma ExamplesAreBlind(run: Run, other: Run, opts: Options, k: nat, start: int, e: TrainingExample)
    requires KnownAlike(run, other, k) && run.SeriesStartOf(k) == Some(start)
    requires forall q :: q in run.input.spot ==> Aligned(q)
    requires e in RunExamples(run, opts, k, start) && e.target in other.input.spot
    ensures other.SeriesStartOf(k) == Some(start)
    ensures e.(realised := other.input.spot[e.target]) in RunExamples(other, opts, k, start)
  {
    hide RowOf, ViewOf, RunInputs, Run.SeriesStartOf, ExamplesOf, Run.WindowStart, TargetCount, FirstTarget;
    InputsAreBlind(run, other, k, start);
    var inputs := RunInputs(run, k, start);
    var v, first := ViewOf(inputs, opts), FirstTarget(inputs, run.WindowStart());
    var n := TargetCount(inputs, run.WindowStart(), run.Start());
    SameWindow(run, other);
    ExampleIsOutcome(run.input.spot, v, opts.rules, first, n, e);
    var i: nat :| i < n && OutcomeOf(run.input.spot, v, opts.rules, first + i * QUARTER_MS) == Example(e);
    var e' := e.(realised := other.input.spot[e.target]);
    assert OutcomeOf(other.input.spot, v, opts.rules, first + i * QUARTER_MS) == Example(e');
    ExampleIsOutcome(other.input.spot, v, opts.rules, first, n, e');
  }

  lemma SameWindow(run: Run, other: Run)
    requires run.Start() == other.Start()
    ensures run.WindowStart() == other.WindowStart()
  {
  }

  // --- The scan stops in time --------------------------------------------------------------------------------

  /** A later issuance never starts its series earlier. */
  lemma SeriesStartsAscend(run: Run, j: nat, k: nat)
    requires Plausible(run.history.zone) && k <= j
    requires forall q :: q in run.input.spot ==> Aligned(q)
    requires run.SeriesStartOf(j).Some? && run.SeriesStartOf(k).Some?
    ensures run.SeriesStartOf(j).value <= run.SeriesStartOf(k).value
  {
    hide PublicationHorizon, Plausible;
    HorizonMonotone(run.IssuedAt(j), run.IssuedAt(k), run.history.zone);
    var a := PublishedEnd(run.IssuedAt(j), run.history.zone, run.Start()).value;
    var b := PublishedEnd(run.IssuedAt(k), run.history.zone, run.Start()).value;
    FloorMonotone(PublicationHorizon(run.IssuedAt(j), run.history.zone).value, PublicationHorizon(run.IssuedAt(k), run.history.zone).value);
    assert a <= b;
    SeriesStartMonotone(run.input.spot, a, b);
  }

  lemma FloorMonotone(x: int, y: int)
    requires x <= y
    ensures Floor(x) <= Floor(y)
  {
    assert x / QUARTER_MS <= y / QUARTER_MS;
  }

  lemma OffsetMonotone(x: int, y: int, ms: int)
    requires x <= y
    ensures Offset(x, ms) <= Offset(y, ms)
  {
    FloorMonotone(x + ms, y + ms);
  }

  lemma SeriesStartMonotone(spot: QuarterMap, a: int, b: int)
    requires a <= b && Aligned(a) && Aligned(b)
    requires forall q :: q in spot ==> Aligned(q)
    ensures SeriesStart(spot, a) <= SeriesStart(spot, b)
  {
    hide Aligned, Offset;
    var p, q := LastBefore(spot, a), LastBefore(spot, b);
    if p.Some? {
      NextIsAtMost(p.value, a);
      OffsetMonotone(p.value, q.value, QUARTER_MS);
    } else if q.Some? {
      assert q.value >= a;
      NextIsAfter(q.value);
    }
  }

  lemma NextIsAtMost(q: int, end: int)
    requires Aligned(q) && Aligned(end) && q < end
    ensures Offset(q, QUARTER_MS) <= end
  {
  }

  lemma NextIsAfter(q: int)
    requires Aligned(q)
    ensures Offset(q, QUARTER_MS) == q + QUARTER_MS
  {
  }

  /** Where the scan stops, no older issuance would have given an example: its
      forecast window ends before the training window. */
  lemma ScanStopsInTime(run: Run, opts: Options, k: nat, j: nat)
    requires Plausible(run.history.zone) && k <= j
    requires forall q :: q in run.input.spot ==> Aligned(q)
    requires run.SeriesStartOf(k).Some? && run.SeriesStartOf(j).Some?
    requires Offset(run.SeriesStartOf(k).value, FORECAST_DAYS * DAY_MS) <= run.WindowStart()
    ensures RunExamples(run, opts, j, run.SeriesStartOf(j).value) == []
  {
    hide RunExamples, Run.SeriesStartOf, Offset, Run.WindowStart, Run.Start, Plausible, RowOf, ViewOf;
    SeriesStartsAscend(run, j, k);
    var start := run.SeriesStartOf(j).value;
    OffsetMonotone(start, run.SeriesStartOf(k).value, FORECAST_DAYS * DAY_MS);
    var es := RunExamples(run, opts, j, start);
    if es != [] {
      ExamplesForecast(run, opts, j, start, es[0]);
    }
  }

  /** The scan keeps every example of an issuance in its range. */
  lemma {:induction false} ScanKeepsExamples(run: Run, opts: Options, i: nat, k: nat, e: TrainingExample)
    requires Plausible(run.history.zone) && forall q :: q in run.input.spot ==> Aligned(q)
    requires i <= k <= MAX_TRAINING_ISSUANCES && run.SeriesStartOf(k).Some?
    requires e in RunExamples(run, opts, k, run.SeriesStartOf(k).value)
    ensures e in From(run, opts, i).examples
    decreases k - i
  {
    hide From, RunExamples, Run.SeriesStartOf, Run.WindowStart, Run.Start, Offset, SummaryOf, RunInputs, RunTally, Plausible, RowOf, ViewOf;
    FromStep(run, opts, i);
    var start := run.SeriesStartOf(k).value;
    ExamplesForecast(run, opts, k, start, e);
    if run.SeriesStartOf(i).Some? {
      SeriesStartsAscend(run, k, i);
      OffsetMonotone(start, run.SeriesStartOf(i).value, FORECAST_DAYS * DAY_MS);
    }
    if i < k {
      ScanKeepsExamples(run, opts, i + 1, k, e);
    }
  }

  /** A local day starts at most 12 hours after the UTC day of the same number. */
  ghost predicate StartsInTime(zone: Zone) {
    forall d :: zone(d).Some? ==> zone(d).value <= d * DAY_MS + 12 * HOUR_MS
  }

  lemma HorizonIsNear(issued: int, zone: Zone)
    requires StartsInTime(zone) && PublicationHorizon(issued, zone).Some?
    ensures PublicationHorizon(issued, zone).value <= issued + 2 * DAY_MS
  {
    var day := issued / DAY_MS;
    assert issued == day * DAY_MS + issued % DAY_MS;
    var published := if UtcHour(issued) >= PUBLICATION_HOUR_UTC then day + 1 else day;
    assert zone(published + 1).value <= (published + 1) * DAY_MS + 12 * HOUR_MS;
  }

  lemma EndIsNear(issued: int, zone: Zone, runStart: int)
    requires StartsInTime(zone) && PublishedEnd(issued, zone, runStart).Some?
    ensures PublishedEnd(issued, zone, runStart).value <= issued + 2 * DAY_MS
  {
    hide StartsInTime;
    HorizonIsNear(issued, zone);
    hide PublicationHorizon;
  }

  lemma StartIsNear(run: Run, k: nat, start: int)
    requires StartsInTime(run.history.zone) && run.SeriesStartOf(k) == Some(start)
    requires forall q :: q in run.input.spot ==> Aligned(q)
    ensures start <= run.IssuedAt(k) + 2 * DAY_MS
    ensures Offset(start, FORECAST_DAYS * DAY_MS) == start + FORECAST_DAYS * DAY_MS
  {
    hide Run.Start, PublishedEnd, SeriesStart, StartsInTime, Offset, Aligned, Run.IssuedAt;
    EndIsNear(run.IssuedAt(k), run.history.zone, run.Start());
    SeriesStartIsEarly(run.input.spot, PublishedEnd(run.IssuedAt(k), run.history.zone, run.Start()).value);
    OffsetForward(start);
  }

  lemma OffsetForward(start: int)
    requires Aligned(start)
    ensures Offset(start, FORECAST_DAYS * DAY_MS) == start + FORECAST_DAYS * DAY_MS
  {
  }

  /** An issuance past the last one of the scan has no target in the training
      window, when the run starts at most a day before its issue time. */
  lemma OldIssuancesGiveNothing(run: Run, opts: Options, k: nat)
    requires StartsInTime(run.history.zone) && forall q :: q in run.input.spot ==> Aligned(q)
    requires run.Start() >= run.history.issuedAt - DAY_MS
    requires k > MAX_TRAINING_ISSUANCES && run.SeriesStartOf(k).Some?
    ensures RunExamples(run, opts, k, run.SeriesStartOf(k).value) == []
  {
    hide RunExamples, Run.SeriesStartOf, Run.Start, RowOf, ViewOf, StartsInTime;
    var start := run.SeriesStartOf(k).value;
    var es := RunExamples(run, opts, k, start);
    StartIsNear(run, k, start);
    if es != [] {
      ExamplesForecast(run, opts, k, start, es[0]);
      WindowIsBack(run);
    }
  }

  lemma WindowIsBack(run: Run)
    ensures run.WindowStart() == run.Start() - TRAINING_HISTORY_DAYS * DAY_MS
  {
    OffsetOfAligned(run.Start(), TRAINING_HISTORY_DAYS * DAY_MS);
  }

  /** The bound on the scan loses nothing: the training set is exactly the examples
      of all earlier issuances, however old. */
  lemma TrainingIsComplete(run: Run, opts: Options, e: TrainingExample)
    requires Plausible(run.history.zone) && StartsInTime(run.history.zone)
    requires forall q :: q in run.input.spot ==> Aligned(q)
    requires run.Start() >= run.history.issuedAt - DAY_MS
    ensures e in From(run, opts, 1).examples <==>
      exists k: nat :: k >= 1 && run.SeriesStartOf(k).Some? && e in RunExamples(run, opts, k, run.SeriesStartOf(k).value)
  {
    hide From, RunExamples, Run.SeriesStartOf, Run.Start, Plausible, StartsInTime;
    if e in From(run, opts, 1).examples {
      var k := ExamplesHaveIssuance(run, opts, 1, e);
    }
    forall k: nat | k >= 1 && run.SeriesStartOf(k).Some? && e in RunExamples(run, opts, k, run.SeriesStartOf(k).value)
      ensures e in From(run, opts, 1).examples
    {
      if k > MAX_TRAINING_ISSUANCES {
        OldIssuancesGiveNothing(run, opts, k);
      } else {
        ScanKeepsExamples(run, opts, 1, k, e);
      }
    }
  }

  /** Every training example of a run is a forecast of an issuance whole days
      before it. */
  lemma EveryExampleForecasts(run: Run, opts: Options, e: TrainingExample) returns (k: nat)
    requires e in From(run, opts, 1).examples
    ensures 1 <= k <= 35 && run.SeriesStartOf(k) == Some(e.seriesStart)
    ensures e.issuedAt == run.history.issuedAt - k * 24 * 60 * 60 * 1000
    ensures e.seriesStart <= e.target < Offset(e.seriesStart, FORECAST_DAYS * DAY_MS)
    ensures run.WindowStart() <= e.target < run.Start()
    ensures e.target in run.input.spot && e.realised == run.input.spot[e.target]
    ensures e in RunExamples(run, opts, k, e.seriesStart)
  {
    hide From, RunExamples, Run.SeriesStartOf, Run.WindowStart, Run.Start, Offset, RowOf, ViewOf;
    k := ExamplesHaveIssuance(run, opts, 1, e);
    ExamplesForecast(run, opts, k, run.SeriesStartOf(k).value, e);
  }

  /** Training is blind: when a run changes only in what an issuance did not know,
      each of its examples whose target still has a price stays a training
      example, with the same row, and takes the new price as its label. */
  lemma TrainingIsBlind(run: Run, other: Run, opts: Options, e: TrainingExample)
    requires e in From(run, opts, 1).examples && e.target in other.input.spot
    requires Plausible(run.history.zone)
    requires forall q :: q in run.input.spot ==> Aligned(q)
    requires forall q :: q in other.input.spot ==> Aligned(q)
    requires forall k: nat :: run.IssuedAt(k) == e.issuedAt ==> KnownAlike(run, other, k)
    ensures e.(realised := other.input.spot[e.target]) in From(other, opts, 1).examples
  {
    hide From, RunExamples, Run.SeriesStartOf, Run.WindowStart, Run.Start, Offset, RowOf, ViewOf, Plausible;
    var k := EveryExampleForecasts(run, opts, e);
    assert run.IssuedAt(k) == e.issuedAt;
    assert KnownAlike(run, other, k);
    ExamplesAreBlind(run, other, opts, k, e.seriesStart, e);
    ScanKeepsExamples(other, opts, 1, k, e.(realised := other.input.spot[e.target]));
  }
}

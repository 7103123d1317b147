/** The grid series of a forecast input: records bucketed by quarter, hourly
    actuals expanded, the tail extended, and gaps filled from earlier weeks. */
module Grid {
  import opened Common
  import opened Ladders
  import opened Ordered
  import opened Quarters
  import opened Tails

  /** What a quarter without a forecast and an actual reads. */
  datatype GapRule = EarlierWeeks | Zero

  datatype GridRules = GridRules(gaps: GapRule, windWeeks: nat, consumptionWeeks: nat)

  /** The series of one dataset: every value, those of the forecast records only,
      and those of the forecast with its extension and its filled gaps. */
  datatype Series = Series(merged: QuarterMap, forecast: QuarterMap, extended: QuarterMap)

  datatype GridSeries = GridSeries(wind: Series, consumption: Series)

  // --- Buckets -------------------------------------------------------------------------------

  /** The sum and the number of the samples of one quarter. */
  function SamplesIn(records: seq<GridRecord>, q: int): Seen {
    if records == [] then Seen(0.0, 0)
    else
      var n := |records| - 1;
      var before := SamplesIn(records[..n], q);
      if Floor(records[n].start) == q then Seen(before.sum + records[n].value, before.count + 1) else before
  }

  /** The mean of the samples of every quarter that has one. */
  ghost function Bucketed(records: seq<GridRecord>): (m: QuarterMap)
    ensures AllAligned(m)
  {
    map q | q in (set r | r in records :: Floor(r.start)) :: SamplesIn(records, q).Mean()
  }

  /** A quarter has a value exactly when it has a sample. */
  lemma {:induction false} QuartersHaveSamples(records: seq<GridRecord>, q: int)
    ensures SamplesIn(records, q).count > 0 <==> exists r :: r in records && Floor(r.start) == q
  {
    if records != [] {
      var front, last := records[..|records| - 1], records[|records| - 1];
      QuartersHaveSamples(front, q);
      assert records == front + [last];
      assert last in records && forall r :: r in records ==> r in front || r == last;
    }
  }

  method BucketRecords(records: seq<GridRecord>) returns (m: QuarterMap)
    ensures m == Bucketed(records)
  {
    hide Floor;
    var sums: map<int, Seen> := map[];
    for n := 0 to |records|
      invariant forall q :: q in sums <==> SamplesIn(records[..n], q).count > 0
      invariant forall q :: q in sums ==> sums[q] == SamplesIn(records[..n], q)
    {
      assert records[..n + 1][..n] == records[..n];
      NoSamples(records[..n]);
      var q := Floor(records[n].start);
      var before := if q in sums then sums[q] else Seen(0.0, 0);
      sums := sums[q := Seen(before.sum + records[n].value, before.count + 1)];
    }
    assert records[..|records|] == records;
    m := map q | q in sums :: sums[q].Mean();
    SameBuckets(records, sums, m);
  }

  /** Without samples the sum is 0. */
  lemma {:induction false} NoSamples(records: seq<GridRecord>)
    ensures forall q :: SamplesIn(records, q).count == 0 ==> SamplesIn(records, q) == Seen(0.0, 0)
  {
    if records != [] {
      NoSamples(records[..|records| - 1]);
    }
  }

  lemma SameBuckets(records: seq<GridRecord>, sums: map<int, Seen>, m: QuarterMap)
    requires forall q :: q in sums <==> SamplesIn(records, q).count > 0
    requires forall q :: q in sums ==> sums[q] == SamplesIn(records, q)
    requires m.Keys == sums.Keys && forall q :: q in m ==> m[q] == sums[q].Mean()
    ensures m == Bucketed(records)
  {
    hide Floor, SamplesIn;
    var b := Bucketed(records);
    forall q: int
      ensures q in m <==> q in b
      ensures q in m && q in b ==> m[q] == b[q]
    {
      assert q in m.Keys <==> q in sums.Keys;
      QuartersHaveSamples(records, q);
    }
    SameLookup(m, b);
  }

  // --- Hourly records ----------------------------------------------------------------------------

  function HourOf(q: int): int {
    q - q % HOUR_MS
  }

  /** A quarter past the hour without a value takes the value of the hour. */
  ghost predicate IsExpanded(r: QuarterMap, quarters: QuarterMap) {
    && (forall q :: q in r <==> q in quarters || (Aligned(q) && HourOf(q) in quarters))
    && (forall q :: q in r ==> r[q] == if q in quarters then quarters[q] else quarters[HourOf(q)])
  }

  lemma QuartersOfHour(h: int, q: int)
    requires h % HOUR_MS == 0
    ensures Aligned(h) && (Aligned(q) && h <= q < h + 4 * QUARTER_MS <==> Aligned(q) && HourOf(q) == h)
  {
    var n, x := h / HOUR_MS, q - h;
    assert h == n * HOUR_MS == (4 * n) * QUARTER_MS;
    assert h <= q < h + 4 * QUARTER_MS ==> q % HOUR_MS == x;
  }

  lemma NextInHour(h: int, k: nat)
    requires Aligned(h)
    ensures Offset(h, k * QUARTER_MS) == h + k * QUARTER_MS && Aligned(h + k * QUARTER_MS)
    ensures forall q :: Aligned(q) && q < h + (k + 1) * QUARTER_MS <==> Aligned(q) && (q < h + k * QUARTER_MS || q == h + k * QUARTER_MS)
  {
  }

  /** The quarters of one hour that its value fills. */
  predicate FilledFrom(quarters: QuarterMap, h: int, q: int) {
    q !in quarters && Aligned(q) && HourOf(q) == h
  }

  method FillHour(quarters: QuarterMap, h: int, before: QuarterMap) returns (r: QuarterMap)
    requires h in quarters && h % HOUR_MS == 0
    ensures forall q :: q in r <==> q in before || FilledFrom(quarters, h, q)
    ensures forall q :: q in r ==> r[q] == if FilledFrom(quarters, h, q) then quarters[h] else before[q]
  {
    hide Offset, Aligned, HourOf;
    r := before;
    QuartersOfHour(h, h);
    NextInHour(h, 0);
    for k := 1 to 4
      invariant forall q :: q in r <==> q in before || (q !in quarters && Aligned(q) && h <= q < h + k * QUARTER_MS)
      invariant forall q :: q in r ==>
                  r[q] == if q !in quarters && Aligned(q) && h <= q < h + k * QUARTER_MS then quarters[h] else before[q]
    {
      NextInHour(h, k);
      var fill := Offset(h, k * QUARTER_MS);
      if fill !in quarters {
        r := r[fill := quarters[h]];
      }
    }
    forall q
      ensures FilledFrom(quarters, h, q) <==> q !in quarters && Aligned(q) && h <= q < h + 4 * QUARTER_MS
    {
      QuartersOfHour(h, q);
    }
  }

  /** The quarters that an hour among the first n keys fills. */
  ghost predicate FilledByHour(quarters: QuarterMap, keys: seq<int>, n: nat, q: int)
    requires n <= |keys|
  {
    exists i :: 0 <= i < n && FilledFrom(quarters, keys[i], q)
  }

  /** One more key fills the quarters of its own hour. */
  lemma FilledNext(quarters: QuarterMap, keys: seq<int>, n: nat, q: int)
    requires n < |keys|
    ensures FilledByHour(quarters, keys, n + 1, q) <==> FilledByHour(quarters, keys, n, q) || FilledFrom(quarters, keys[n], q)
  {
    hide FilledFrom;
  }

  lemma HoursAreWhole(q: int)
    ensures HourOf(q) % HOUR_MS == 0
  {
    assert q == (q / HOUR_MS) * HOUR_MS + q % HOUR_MS;
  }

  method ExpandHourlyToQuarters(records: seq<GridRecord>) returns (r: QuarterMap)
    ensures IsExpanded(r, Bucketed(records))
  {
    hide Bucketed, Ascending, HourOf, Aligned, FilledByHour;
    var quarters := BucketRecords(records);
    KeysInMap(quarters);
    var keys := Ascending(quarters.Keys);
    r := quarters;
    NothingFilled(quarters, keys);
    for n := 0 to |keys|
      invariant forall q :: q in r <==> q in quarters || FilledByHour(quarters, keys, n, q)
      invariant forall q :: q in r ==> r[q] == ExpandedValue(quarters, q)
    {
      var h := keys[n];
      if h % HOUR_MS == 0 {
        r := FillHour(quarters, h, r);
      }
      forall q
        ensures FilledByHour(quarters, keys, n + 1, q) <==>
          FilledByHour(quarters, keys, n, q) || FilledFrom(quarters, h, q)
        ensures FilledFrom(quarters, h, q) ==> h % HOUR_MS == 0
      {
        FilledNext(quarters, keys, n, q);
        HoursAreWhole(q);
      }
    }
    forall q
      ensures q in r <==> q in quarters || (Aligned(q) && HourOf(q) in quarters)
    {
      FilledByAny(quarters, keys, q);
    }
  }

  function ExpandedValue(quarters: QuarterMap, q: int): real {
    if q in quarters then quarters[q] else if HourOf(q) in quarters then quarters[HourOf(q)] else 0.0
  }

  lemma NothingFilled(quarters: QuarterMap, keys: seq<int>)
    ensures forall q :: !FilledByHour(quarters, keys, 0, q)
  {
  }

  lemma FilledByAny(quarters: QuarterMap, keys: seq<int>, q: int)
    requires forall k :: k in keys <==> k in quarters
    ensures FilledByHour(quarters, keys, |keys|, q) <==> q !in quarters && Aligned(q) && HourOf(q) in quarters
  {
    if q !in quarters && Aligned(q) && HourOf(q) in quarters {
      var i :| 0 <= i < |keys| && keys[i] == HourOf(q);
      assert FilledFrom(quarters, keys[i], q);
    }
  }

  ghost function QuartersFrom(h: int): (r: set<int>)
    ensures forall q :: q in r <==> h <= q < h + HOUR_MS && Aligned(q)
  {
    set q | h <= q < h + HOUR_MS && Aligned(q)
  }

  /** The expansion as a map. */
  ghost function Expanded(quarters: QuarterMap): (r: QuarterMap)
    ensures IsExpanded(r, quarters)
    ensures AllAligned(quarters) ==> AllAligned(r)
  {
    var late := set h, q | h in quarters && q in QuartersFrom(h) && HourOf(q) == h :: q;
    assert forall q :: Aligned(q) && HourOf(q) in quarters ==> q in QuartersFrom(HourOf(q)) && q in late;
    map q | q in quarters.Keys + late :: ExpandedValue(quarters, q)
  }

  // --- The series of a dataset --------------------------------------------------------------------

  ghost function Extended(forecast: QuarterMap, actual: QuarterMap, end: int, weeks: nat): (r: QuarterMap)
    ensures forecast.Keys == {} ==> r == forecast
    ensures forecast.Keys != {} ==> IsExtended(r, forecast, actual, Max(forecast.Keys), end, weeks)
  {
    if forecast.Keys == {} then forecast
    else
      var later := set q | Max(forecast.Keys) < q < end && Aligned(q) && LastWeeks(actual, q, weeks).count > 0;
      map q | q in forecast.Keys + later :: if q in forecast then forecast[q] else LastWeeks(actual, q, weeks).Mean()
  }

  ghost function FilledGaps(known: QuarterMap, actual: QuarterMap, end: int, weeks: nat): (r: QuarterMap)
    ensures actual.Keys == {} || weeks == 0 ==> r == map[]
    ensures actual.Keys != {} && weeks > 0 ==> IsFilled(r, known, actual, Min(actual.Keys), end, weeks)
  {
    if actual.Keys == {} || weeks == 0 then map[]
    else
      map q | Min(actual.Keys) <= q < end && Aligned(q) && q !in known
              && NearestWeeks(actual, q, LookbackOf(weeks), weeks).count > 0
        :: NearestWeeks(actual, q, LookbackOf(weeks), weeks).Mean()
  }

  /** The forecast over the extension over the actuals, with the gaps between them
      filled under the rule. */
  ghost function SeriesOf(forecast: QuarterMap, actual: QuarterMap, end: int, weeks: nat, gaps: GapRule): Series {
    var extended := Extended(forecast, actual, end, weeks);
    var merged := actual + extended;
    match gaps
    case Zero => Series(merged, forecast, extended)
    case EarlierWeeks =>
      var filled := FilledGaps(merged, actual, end, weeks);
      Series(merged + filled, forecast, extended + filled)
  }

  method BuildSeries(forecast: QuarterMap, actual: QuarterMap, end: int, weeks: nat, gaps: GapRule) returns (s: Series)
    requires AllAligned(forecast) && AllAligned(actual)
    ensures s == SeriesOf(forecast, actual, end, weeks, gaps)
  {
    hide Max, Min, LastWeeks, NearestWeeks;
    var extended := ExtendWithLastWeek(forecast, actual, end, weeks);
    SameExtension(extended, forecast, actual, end, weeks);
    var merged := actual + extended;
    s := Series(merged, forecast, extended);
    if gaps.EarlierWeeks? {
      var filled := FillGapsFromEarlierWeeks(merged, actual, end, weeks);
      SameFill(filled, merged, actual, end, weeks);
      s := Series(merged + filled, forecast, extended + filled);
    }
  }

  lemma SameExtension(r: QuarterMap, forecast: QuarterMap, actual: QuarterMap, end: int, weeks: nat)
    requires forecast.Keys == {} ==> r == forecast
    requires forecast.Keys != {} ==> IsExtended(r, forecast, actual, Max(forecast.Keys), end, weeks)
    ensures r == Extended(forecast, actual, end, weeks)
  {
    hide Max, LastWeeks;
    var x := Extended(forecast, actual, end, weeks);
    if forecast.Keys != {} {
      assert IsExtended(x, forecast, actual, Max(forecast.Keys), end, weeks);
      hide Extended;
      forall q: int
        ensures q in r <==> q in x
        ensures q in r && q in x ==> r[q] == x[q]
      {
      }
      SameLookup(r, x);
    }
  }

  lemma SameFill(r: QuarterMap, known: QuarterMap, actual: QuarterMap, end: int, weeks: nat)
    requires actual.Keys == {} || weeks == 0 ==> r == map[]
    requires actual.Keys != {} && weeks > 0 ==> IsFilled(r, known, actual, Min(actual.Keys), end, weeks)
    ensures r == FilledGaps(known, actual, end, weeks)
  {
    hide Min, NearestWeeks;
    var x := FilledGaps(known, actual, end, weeks);
    if actual.Keys != {} && weeks > 0 {
      assert IsFilled(x, known, actual, Min(actual.Keys), end, weeks);
      hide FilledGaps;
      forall q: int
        ensures q in r <==> q in x
        ensures q in r && q in x ==> r[q] == x[q]
      {
      }
      SameLookup(r, x);
    }
  }

  ghost function WindOf(forecast: seq<GridRecord>, actual: seq<GridRecord>, end: int, rules: GridRules): Series {
    SeriesOf(Bucketed(forecast), Bucketed(actual), end, rules.windWeeks, rules.gaps)
  }

  /** The actual consumption can be hourly. */
  ghost function ConsumptionOf(forecast: seq<GridRecord>, actual: seq<GridRecord>, end: int, rules: GridRules): Series {
    SeriesOf(Bucketed(forecast), Expanded(Bucketed(actual)), end, rules.consumptionWeeks, rules.gaps)
  }

  method BuildGridSeries(windForecast: seq<GridRecord>, windActual: seq<GridRecord>,
                         consumptionForecast: seq<GridRecord>, consumptionActual: seq<GridRecord>,
                         end: int, rules: GridRules) returns (g: GridSeries)
    ensures g.wind == WindOf(windForecast, windActual, end, rules)
    ensures g.consumption == ConsumptionOf(consumptionForecast, consumptionActual, end, rules)
  {
    hide Bucketed, SeriesOf, Expanded;
    var windPredicted := BucketRecords(windForecast);
    var windMeasured := BucketRecords(windActual);
    var consumptionPredicted := BucketRecords(consumptionForecast);
    var consumptionMeasured := ExpandHourlyToQuarters(consumptionActual);
    SameExpansion(consumptionMeasured, Bucketed(consumptionActual));
    var wind := BuildSeries(windPredicted, windMeasured, end, rules.windWeeks, rules.gaps);
    var consumption := BuildSeries(consumptionPredicted, consumptionMeasured, end, rules.consumptionWeeks, rules.gaps);
    g := GridSeries(wind, consumption);
  }

  lemma SameExpansion(r: QuarterMap, quarters: QuarterMap)
    requires IsExpanded(r, quarters)
    ensures r == Expanded(quarters)
  {
    var x := Expanded(quarters);
    hide Expanded, HourOf, Aligned;
    forall q: int
      ensures q in r <==> q in x
      ensures q in r && q in x ==> r[q] == x[q]
    {
    }
    SameLookup(r, x);
  }

  // --- Which quarters have a value, and which one ---------------------------------------------------

  lemma {:induction false} HeldInAWeek(actual: QuarterMap, q: int, n: nat)
    ensures Held(actual, q, n) > 0 <==> exists w: nat :: 1 <= w <= n && WeeksBack(q, w) in actual
  {
    hide WeeksBack;
    if n > 0 {
      HeldInAWeek(actual, q, n - 1);
      assert WeeksBack(q, n) in actual ==> exists w: nat :: 1 <= w <= n && WeeksBack(q, w) in actual;
    }
  }

  /** A quarter with an earlier week among the actuals lies after the first of them. */
  lemma HeldIsAfterFirst(actual: QuarterMap, q: int, n: nat)
    requires Held(actual, q, n) > 0
    ensures actual.Keys != {} && Min(actual.Keys) <= q
  {
    HeldInAWeek(actual, q, n);
    var w: nat :| 1 <= w <= n && WeeksBack(q, w) in actual;
    hide Min;
    assert WeeksBack(q, w) in actual.Keys;
  }

  /** A quarter before the end has a value exactly when the forecast or the actuals
      hold it, or an earlier week of the actuals does: one of the weeks of the
      extension past the forecast, or, when gaps are filled, one of the lookback. */
  lemma ValuesExactly(forecast: QuarterMap, actual: QuarterMap, end: int, weeks: nat, gaps: GapRule, q: int)
    requires Aligned(q) && q < end
    ensures q in SeriesOf(forecast, actual, end, weeks, gaps).merged <==>
      || q in forecast || q in actual
      || (forecast.Keys != {} && Max(forecast.Keys) < q && Held(actual, q, weeks) > 0)
      || (gaps.EarlierWeeks? && weeks > 0 && Held(actual, q, LookbackOf(weeks)) > 0)
  {
    hide Max, Min, Extended, FilledGaps, LastWeeks, NearestWeeks, LookbackOf;
    FillTakesNearest(actual, q, LookbackOf(weeks), weeks);
    if Held(actual, q, LookbackOf(weeks)) > 0 {
      HeldIsAfterFirst(actual, q, LookbackOf(weeks));
    }
  }

  /** When gaps are filled, a quarter lacks a value exactly when neither dataset
      holds it and no week of the lookback has an actual. */
  lemma MissingExactly(forecast: QuarterMap, actual: QuarterMap, end: int, weeks: nat, q: int)
    requires Aligned(q) && q < end && weeks > 0
    ensures q !in SeriesOf(forecast, actual, end, weeks, EarlierWeeks).merged <==>
      q !in forecast && q !in actual && forall w: nat :: 1 <= w <= LookbackOf(weeks) ==> WeeksBack(q, w) !in actual
  {
    hide Max, SeriesOf, WeeksBack;
    ValuesExactly(forecast, actual, end, weeks, EarlierWeeks, q);
    HeldInAWeek(actual, q, LookbackOf(weeks));
    HeldAscends(actual, q, weeks, LookbackOf(weeks));
  }

  /** Where the value of a quarter comes from: a forecast is never overridden, the
      extension is preferred to an actual, and what else is filled in is the mean
      of the nearest weeks. */
  lemma ValueComesFrom(forecast: QuarterMap, actual: QuarterMap, end: int, weeks: nat, gaps: GapRule, q: int)
    requires q in SeriesOf(forecast, actual, end, weeks, gaps).merged
    ensures var s := SeriesOf(forecast, actual, end, weeks, gaps);
      && (q in forecast ==> s.merged[q] == forecast[q])
      && (q !in forecast && q in s.extended ==>
            s.merged[q] == s.extended[q]
            && s.merged[q] == if forecast.Keys != {} && Max(forecast.Keys) < q < end && Held(actual, q, weeks) > 0
                              then LastWeeks(actual, q, weeks).Mean()
                              else NearestWeeks(actual, q, LookbackOf(weeks), weeks).Mean())
      && (q !in forecast && q !in s.extended ==> q in actual && s.merged[q] == actual[q])
  {
    hide Max, Min, Extended, FilledGaps, LastWeeks, NearestWeeks, LookbackOf;
  }
}

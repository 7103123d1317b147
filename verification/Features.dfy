/** The feature row of one quarter and the price index that its rows share. */
module Features {
  import opened Common
  import opened LinearAlgebra
  import opened Ordered
  import opened Quarters

  const FEATURE_COUNT: nat := 21
  const NEIGHBOUR_AREAS: seq<string> := ["SE1", "SE3", "EE"]

  type NeighbourPrices = map<string, QuarterMap>

  /** The inputs of feature assembly. */
  datatype Context = Context(fi: QuarterMap, neighbours: NeighbourPrices, wind: QuarterMap, consumption: QuarterMap)

  /** The start of the day that holds a quarter and of the day before it, none
      outside the supported range; the latest-price rule; and the angle of a
      cyclical feature. */
  datatype Rules = Rules(
    atOrBefore: bool, dayStart: int -> Option<int>, previousDayStart: int -> Option<int>,
    cyclical: (nat, nat) -> (real, real))

  datatype DayStats = DayStats(min: real, max: real, mean: real)

  datatype PriceIndex = PriceIndex(stats: map<int, DayStats>, neutral: real)

  datatype Aggregate = Aggregate(min: real, max: real, sum: real, n: nat)

  // --- The price index ------------------------------------------------------------------------

  function Joined(before: Option<Aggregate>, price: real): Aggregate {
    if before.None? then Aggregate(price, price, price, 1)
    else
      Aggregate(if price < before.value.min then price else before.value.min,
                if price > before.value.max then price else before.value.max,
                before.value.sum + price, before.value.n + 1)
  }

  /** The aggregate of the prices of one day among the first n keys. */
  function DayAggregate(prices: QuarterMap, rules: Rules, keys: seq<int>, n: nat, day: int): Option<Aggregate>
    requires n <= |keys| && forall i :: 0 <= i < |keys| ==> keys[i] in prices
  {
    if n == 0 then None
    else
      var before := DayAggregate(prices, rules, keys, n - 1, day);
      if rules.dayStart(keys[n - 1]) == Some(day) then Some(Joined(before, prices[keys[n - 1]])) else before
  }

  function TotalOf(prices: QuarterMap, keys: seq<int>, n: nat): real
    requires n <= |keys| && forall i :: 0 <= i < |keys| ==> keys[i] in prices
  {
    if n == 0 then 0.0 else TotalOf(prices, keys, n - 1) + prices[keys[n - 1]]
  }

  function StatsOf(a: Aggregate): DayStats {
    DayStats(a.min, a.max, if a.n == 0 then 0.0 else a.sum / a.n as real)
  }

  /** The days that hold a price. */
  ghost function Days(prices: QuarterMap, rules: Rules): set<int> {
    set q | q in prices && rules.dayStart(q).Some? :: rules.dayStart(q).value
  }

  ghost function DayOf(prices: QuarterMap, rules: Rules, day: int): Option<Aggregate> {
    KeysInMap(prices);
    DayAggregate(prices, rules, Ascending(prices.Keys), |Ascending(prices.Keys)|, day)
  }

  ghost function MeanPrice(prices: QuarterMap): real {
    KeysInMap(prices);
    var keys := Ascending(prices.Keys);
    if |keys| == 0 then 0.0 else TotalOf(prices, keys, |keys|) / |keys| as real
  }

  /** The statistics of every day with a price, and the mean of all prices. */
  ghost function IndexOf(prices: QuarterMap, rules: Rules): PriceIndex {
    PriceIndex(
      map day | day in Days(prices, rules) ::
        var a := DayOf(prices, rules, day); StatsOf(if a.None? then Aggregate(0.0, 0.0, 0.0, 0) else a.value),
      MeanPrice(prices))
  }

  method BuildPriceIndex(prices: QuarterMap, rules: Rules) returns (index: PriceIndex)
    ensures index == IndexOf(prices, rules)
  {
    hide Ascending, Joined, StatsOf;
    KeysInMap(prices);
    var keys := Ascending(prices.Keys);
    var perDay: map<int, Aggregate> := map[];
    var total := 0.0;
    for n := 0 to |keys|
      invariant forall day :: Lookup(perDay, day) == DayAggregate(prices, rules, keys, n, day)
      invariant total == TotalOf(prices, keys, n)
    {
      var price := prices[keys[n]];
      total := total + price;
      var day := rules.dayStart(keys[n]);
      if day.Some? {
        perDay := perDay[day.value := Joined(Lookup(perDay, day.value), price)];
      }
    }
    var stats := map day | day in perDay :: StatsOf(perDay[day]);
    index := PriceIndex(stats, if |keys| > 0 then total / |keys| as real else 0.0);
    ghost var whole := IndexOf(prices, rules);
    forall day: int
      ensures day in stats <==> day in whole.stats
      ensures day in stats && day in whole.stats ==> stats[day] == whole.stats[day]
    {
      assert Lookup(perDay, day) == DayAggregate(prices, rules, keys, |keys|, day) == DayOf(prices, rules, day);
      DaysHavePrices(prices, rules, day);
    }
    SameLookup(stats, whole.stats);
  }

  lemma DaysHavePrices(prices: QuarterMap, rules: Rules, day: int)
    ensures day in Days(prices, rules) <==> DayOf(prices, rules, day).Some?
  {
    KeysInMap(prices);
    var keys := Ascending(prices.Keys);
    AggregateBounds(prices, rules, keys, |keys|, day);
    if day in Days(prices, rules) {
      var q :| q in prices && rules.dayStart(q) == Some(day);
      assert q in keys;
    }
  }

  /** The statistics of a day bound its prices, and both bounds are prices of the
      day; a day has statistics exactly when it has a price. */
  lemma {:induction false} AggregateBounds(prices: QuarterMap, rules: Rules, keys: seq<int>, n: nat, day: int)
    requires n <= |keys| && forall i :: 0 <= i < |keys| ==> keys[i] in prices
    ensures var a := DayAggregate(prices, rules, keys, n, day);
      && (a.Some? <==> exists i :: 0 <= i < n && rules.dayStart(keys[i]) == Some(day))
      && (a.Some? ==>
            && a.value.n > 0
            && (forall i :: 0 <= i < n && rules.dayStart(keys[i]) == Some(day) ==> a.value.min <= prices[keys[i]] <= a.value.max)
            && (exists i :: 0 <= i < n && rules.dayStart(keys[i]) == Some(day) && prices[keys[i]] == a.value.min)
            && (exists i :: 0 <= i < n && rules.dayStart(keys[i]) == Some(day) && prices[keys[i]] == a.value.max))
  {
    if n > 0 {
      AggregateBounds(prices, rules, keys, n - 1, day);
    }
  }

  // --- The row ------------------------------------------------------------------------------------

  /** The last key before the bound. */
  function LastBefore(m: QuarterMap, bound: int): (last: Option<int>)
    ensures last.Some? ==> last.value in m && last.value < bound
    ensures forall k :: k in m && k < bound ==> last.Some? && k <= last.value
  {
    var before := set k | k in m && k < bound;
    assert forall k :: k in m && k < bound ==> k in before;
    if before == {} then None else Some(Max(before))
  }

  function ValueOr(m: QuarterMap, q: int, fill: real): real {
    if q in m then m[q] else fill
  }

  function Lag(neighbours: NeighbourPrices, area: string, q: int, fill: real): real {
    if area in neighbours then ValueOr(neighbours[area], q, fill) else fill
  }

  /** The feature columns of a quarter, in their fixed order. */
  function AssembleFeatures(at: int, ctx: Context, index: PriceIndex, rules: Rules): (row: seq<real>)
    ensures |row| == FEATURE_COUNT
  {
    var neutral := index.neutral;
    var wind, consumption := ValueOr(ctx.wind, at, 0.0), ValueOr(ctx.consumption, at, 0.0);
    var dayAgo, weekAgo := Offset(at, -DAY_MS), Offset(at, -WEEK_MS);
    var latest := LastBefore(ctx.fi, if rules.atOrBefore then at + 1 else at);
    var previous := rules.previousDayStart(at);
    var day :=
      if previous.Some? && previous.value in index.stats then index.stats[previous.value]
      else DayStats(neutral, neutral, neutral);
    var hour, weekday := rules.cyclical(UtcHour(at), 24), rules.cyclical(UtcWeekday(at), 7);
    [consumption - wind, wind, consumption, wind * consumption,
     if latest.Some? then ctx.fi[latest.value] else neutral,
     ValueOr(ctx.fi, dayAgo, neutral), ValueOr(ctx.fi, weekAgo, neutral),
     day.min, day.max, day.mean,
     Lag(ctx.neighbours, "SE1", dayAgo, neutral), Lag(ctx.neighbours, "SE1", weekAgo, neutral),
     Lag(ctx.neighbours, "SE3", dayAgo, neutral), Lag(ctx.neighbours, "SE3", weekAgo, neutral),
     Lag(ctx.neighbours, "EE", dayAgo, neutral), Lag(ctx.neighbours, "EE", weekAgo, neutral),
     hour.0, hour.1, weekday.0, weekday.1,
     if UtcWeekday(at) == 0 || UtcWeekday(at) == 6 then 1.0 else 0.0]
  }

  lemma IndexAt(prices: QuarterMap, rules: Rules, day: int)
    ensures day in IndexOf(prices, rules).stats <==> DayOf(prices, rules, day).Some?
    ensures DayOf(prices, rules, day).Some? ==>
      IndexOf(prices, rules).stats[day] == StatsOf(DayOf(prices, rules, day).value)
  {
    DaysHavePrices(prices, rules, day);
    hide DayOf;
  }

  lemma DayOfBounds(prices: QuarterMap, rules: Rules, day: int)
    ensures var a := DayOf(prices, rules, day);
      && (a.Some? <==> exists q :: q in prices && rules.dayStart(q) == Some(day))
      && (a.Some? ==>
            && (forall q :: q in prices && rules.dayStart(q) == Some(day) ==> a.value.min <= prices[q] <= a.value.max)
            && (exists q :: q in prices && rules.dayStart(q) == Some(day) && prices[q] == a.value.min)
            && (exists q :: q in prices && rules.dayStart(q) == Some(day) && prices[q] == a.value.max))
  {
    hide Ascending, DayAggregate;
    KeysInMap(prices);
    var keys := Ascending(prices.Keys);
    AggregateBounds(prices, rules, keys, |keys|, day);
    forall q: int | q in prices
      ensures exists i :: 0 <= i < |keys| && keys[i] == q
    {
      assert q in keys;
    }
  }

  /** The statistics of a day are those of its prices: both bounds are prices of
      the day, and no price of the day lies outside them. */
  lemma IndexIsDayStats(prices: QuarterMap, rules: Rules, day: int)
    ensures day in IndexOf(prices, rules).stats <==> exists q :: q in prices && rules.dayStart(q) == Some(day)
    ensures day in IndexOf(prices, rules).stats ==>
      var s := IndexOf(prices, rules).stats[day];
      && (forall q :: q in prices && rules.dayStart(q) == Some(day) ==> s.min <= prices[q] <= s.max)
      && (exists q :: q in prices && rules.dayStart(q) == Some(day) && prices[q] == s.min)
      && (exists q :: q in prices && rules.dayStart(q) == Some(day) && prices[q] == s.max)
  {
    hide IndexOf, DayOf;
    IndexAt(prices, rules, day);
    DayOfBounds(prices, rules, day);
  }

  lemma {:induction false} SumBounds(prices: QuarterMap, rules: Rules, keys: seq<int>, n: nat, day: int)
    requires n <= |keys| && forall i :: 0 <= i < |keys| ==> keys[i] in prices
    ensures var a := DayAggregate(prices, rules, keys, n, day);
      a.Some? ==>
        (a.value.n > 0 && a.value.min <= a.value.max
         && Times(a.value.n as real, a.value.min) <= a.value.sum <= Times(a.value.n as real, a.value.max))
  {
    if n > 0 {
      SumBounds(prices, rules, keys, n - 1, day);
      var before := DayAggregate(prices, rules, keys, n - 1, day);
      if before.Some? && rules.dayStart(keys[n - 1]) == Some(day) {
        JoinedBounds(before.value, prices[keys[n - 1]]);
      }
    }
  }

  lemma JoinedBounds(a: Aggregate, price: real)
    requires a.n > 0 && a.min <= a.max && Times(a.n as real, a.min) <= a.sum <= Times(a.n as real, a.max)
    ensures var b := Joined(Some(a), price);
      b.min <= b.max && Times(b.n as real, b.min) <= b.sum <= Times(b.n as real, b.max)
  {
    var b, n := Joined(Some(a), price), a.n as real;
    assert Times(b.n as real, b.min) == Times(n, b.min) + b.min;
    assert Times(b.n as real, b.max) == Times(n, b.max) + b.max;
    TimesOrder(n, b.min, a.min);
    TimesOrder(n, a.max, b.max);
  }

  lemma TimesOrder(n: real, x: real, y: real)
    requires n > 0.0 && x <= y
    ensures Times(n, x) <= Times(n, y)
  {
    if x < y {
      assert Times(n, y - x) > 0.0;
    }
  }

  /** The mean of a day lies between its bounds. */
  lemma MeanIsBetween(prices: QuarterMap, rules: Rules, day: int)
    ensures day in IndexOf(prices, rules).stats ==>
      var s := IndexOf(prices, rules).stats[day]; s.min <= s.mean <= s.max
  {
    IndexAt(prices, rules, day);
    KeysInMap(prices);
    var keys := Ascending(prices.Keys);
    SumBounds(prices, rules, keys, |keys|, day);
    assert DayOf(prices, rules, day) == DayAggregate(prices, rules, keys, |keys|, day);
    hide Ascending, IndexOf, DayAggregate, DayOf;
    var a := DayOf(prices, rules, day);
    if a.Some? {
      QuotientBetween(a.value.sum, a.value.n as real, a.value.min, a.value.max);
    }
  }

  /** The grid and the price columns of a quarter: the residual and the product of
      the two grid values, the prices exactly a day and a week before, and the
      neutral fill where there is none. */
  lemma ColumnsOfRow(at: int, ctx: Context, index: PriceIndex, rules: Rules)
    requires Aligned(at)
    ensures var row := AssembleFeatures(at, ctx, index, rules);
      && row[0] == row[2] - row[1] && row[3] == row[1] * row[2]
      && row[1] == ValueOr(ctx.wind, at, 0.0) && row[2] == ValueOr(ctx.consumption, at, 0.0)
      && row[5] == ValueOr(ctx.fi, at - DAY_MS, index.neutral) && row[6] == ValueOr(ctx.fi, at - WEEK_MS, index.neutral)
      && (forall i: nat :: i < 3 ==>
            row[10 + 2 * i] == Lag(ctx.neighbours, NEIGHBOUR_AREAS[i], at - DAY_MS, index.neutral)
            && row[11 + 2 * i] == Lag(ctx.neighbours, NEIGHBOUR_AREAS[i], at - WEEK_MS, index.neutral))
  {
    hide Offset, LastBefore, Lag, UtcHour, UtcWeekday;
    OffsetOfAligned(at, DAY_MS);
    OffsetOfAligned(at, WEEK_MS);
    NeighbourColumns(at, ctx, index, rules);
  }

  lemma NeighbourColumns(at: int, ctx: Context, index: PriceIndex, rules: Rules)
    ensures var row := AssembleFeatures(at, ctx, index, rules);
      forall i: nat :: i < 3 ==>
        (row[10 + 2 * i] == Lag(ctx.neighbours, NEIGHBOUR_AREAS[i], Offset(at, -DAY_MS), index.neutral)
         && row[11 + 2 * i] == Lag(ctx.neighbours, NEIGHBOUR_AREAS[i], Offset(at, -WEEK_MS), index.neutral))
  {
    hide Offset, LastBefore, ValueOr, Lag, UtcHour, UtcWeekday;
  }

  lemma OffsetOfAligned(at: int, ms: int)
    requires Aligned(at) && Aligned(ms)
    ensures Offset(at, -ms) == at - ms
  {
  }
}

/** The columns of a feature row that come from the latest price, the previous
    day, the hour and the weekday. */
module FeatureColumns {
  import opened Common
  import opened Calendar
  import opened Features
  import opened Filtering
  import opened Ordered
  import opened Quarters

  // --- The latest price --------------------------------------------------------------------

  /** A price that the rule of the latest price can see at a quarter. */
  predicate Seen(prices: QuarterMap, rules: Rules, at: int, q: int) {
    q in prices && (q < at || (rules.atOrBefore && q == at))
  }

  /** The column of the latest price holds the price of the last quarter before the
      target, or at it under the other rule, and the neutral fill without one. */
  lemma LatestColumn(at: int, ctx: Context, index: PriceIndex, rules: Rules)
    ensures var latest := AssembleFeatures(at, ctx, index, rules)[4];
      && ((forall q :: !Seen(ctx.fi, rules, at, q)) ==> latest == index.neutral)
      && (forall q :: Seen(ctx.fi, rules, at, q) && (forall p :: Seen(ctx.fi, rules, at, p) ==> p <= q) ==> latest == ctx.fi[q])
  {
    hide Offset, ValueOr, Lag, UtcHour, UtcWeekday;
    var last := LastBefore(ctx.fi, if rules.atOrBefore then at + 1 else at);
    assert last.Some? ==> Seen(ctx.fi, rules, at, last.value);
    hide LastBefore;
    forall q | Seen(ctx.fi, rules, at, q) && (forall p :: Seen(ctx.fi, rules, at, p) ==> p <= q)
      ensures last == Some(q)
    {
    }
  }

  // --- The previous day ----------------------------------------------------------------------

  function OnDay(rules: Rules, day: int): int -> bool {
    (q: int) => rules.dayStart(q) == Some(day)
  }

  /** The quarters of a day that have a price, in order. */
  function DayKeys(prices: QuarterMap, rules: Rules, day: int): seq<int> {
    Filter(OnDay(rules, day), Ascending(prices.Keys))
  }

  /** The aggregate of a day holds the number and the sum of its prices. */
  lemma {:induction false} AggregateSums(prices: QuarterMap, rules: Rules, keys: seq<int>, n: nat, day: int)
    requires n <= |keys| && forall i :: 0 <= i < |keys| ==> keys[i] in prices
    ensures var a, on := DayAggregate(prices, rules, keys, n, day), Filter(OnDay(rules, day), keys[..n]);
      && (forall i :: 0 <= i < |on| ==> on[i] in prices)
      && (a.None? ==> on == [])
      && (a.Some? ==> a.value.n == |on| > 0 && a.value.sum == TotalOf(prices, on, |on|))
  {
    if n > 0 {
      AggregateSums(prices, rules, keys, n - 1, day);
      var q, before := keys[n - 1], Filter(OnDay(rules, day), keys[..n - 1]);
      assert keys[..n][..n - 1] == keys[..n - 1];
      if rules.dayStart(q) == Some(day) {
        TotalOfPush(prices, before, q);
      }
    } else {
      assert keys[..0] == [];
    }
  }

  lemma TotalOfPush(prices: QuarterMap, keys: seq<int>, q: int)
    requires q in prices && forall i :: 0 <= i < |keys| ==> keys[i] in prices
    ensures TotalOf(prices, keys + [q], |keys| + 1) == TotalOf(prices, keys, |keys|) + prices[q]
  {
    TotalOfPrefix(prices, keys, q, |keys|);
  }

  lemma {:induction false} TotalOfPrefix(prices: QuarterMap, keys: seq<int>, q: int, n: nat)
    requires q in prices && n <= |keys| && forall i :: 0 <= i < |keys| ==> keys[i] in prices
    ensures TotalOf(prices, keys + [q], n) == TotalOf(prices, keys, n)
  {
    if n > 0 {
      TotalOfPrefix(prices, keys, q, n - 1);
    }
  }

  /** The lowest, the highest and the mean price of a day. */
  ghost predicate IsRangeOf(prices: QuarterMap, rules: Rules, day: int, lowest: real, highest: real, mean: real) {
    && (forall q :: q in prices && rules.dayStart(q) == Some(day) ==> lowest <= prices[q] <= highest)
    && (exists q :: q in prices && rules.dayStart(q) == Some(day) && prices[q] == lowest)
    && (exists q :: q in prices && rules.dayStart(q) == Some(day) && prices[q] == highest)
    && IsMeanOf(prices, DayKeys(prices, rules, day), mean)
  }

  ghost predicate IsMeanOf(prices: QuarterMap, keys: seq<int>, mean: real) {
    && keys != [] && (forall i :: 0 <= i < |keys| ==> keys[i] in prices)
    && mean * |keys| as real == TotalOf(prices, keys, |keys|)
  }

  lemma DayMean(prices: QuarterMap, rules: Rules, day: int)
    requires day in IndexOf(prices, rules).stats
    ensures IsMeanOf(prices, DayKeys(prices, rules, day), IndexOf(prices, rules).stats[day].mean)
  {
    hide Ascending, IndexOf, DayAggregate, TotalOf, Filter, StatsOf;
    IndexAt(prices, rules, day);
    KeysInMap(prices);
    var keys := Ascending(prices.Keys);
    AggregateSums(prices, rules, keys, |keys|, day);
    assert keys[..|keys|] == keys;
    var a := DayOf(prices, rules, day).value;
    assert Some(a) == DayAggregate(prices, rules, keys, |keys|, day);
    hide DayOf;
    MeanOfStats(a);
  }

  lemma MeanOfStats(a: Aggregate)
    requires a.n > 0
    ensures StatsOf(a).mean * a.n as real == a.sum
  {
    MeanTimesCount(a.sum, a.n);
  }

  lemma MeanTimesCount(sum: real, n: nat)
    requires n > 0
    ensures sum / n as real * n as real == sum
  {
  }

  lemma StatsAreRange(prices: QuarterMap, rules: Rules, day: int)
    ensures var stats := IndexOf(prices, rules).stats;
      && (day in stats <==> exists q :: q in prices && rules.dayStart(q) == Some(day))
      && (day in stats ==> IsRangeOf(prices, rules, day, stats[day].min, stats[day].max, stats[day].mean))
  {
    hide IndexOf, DayKeys, IsMeanOf;
    IndexIsDayStats(prices, rules, day);
    if day in IndexOf(prices, rules).stats {
      DayMean(prices, rules, day);
    }
  }

  /** The three columns of the previous day are its lowest, highest and mean price;
      a day without a price has the neutral fill in all of them. */
  lemma PreviousDayColumns(at: int, ctx: Context, rules: Rules)
    ensures var index, day := IndexOf(ctx.fi, rules), rules.previousDayStart(at);
      var row := AssembleFeatures(at, ctx, index, rules);
      if day.Some? && exists q :: q in ctx.fi && rules.dayStart(q) == day
      then IsRangeOf(ctx.fi, rules, day.value, row[7], row[8], row[9])
      else row[7] == row[8] == row[9] == index.neutral
  {
    hide Offset, ValueOr, Lag, UtcHour, UtcWeekday, LastBefore, IndexOf, IsRangeOf;
    var day := rules.previousDayStart(at);
    if day.Some? {
      StatsAreRange(ctx.fi, rules, day.value);
    }
  }

  /** The neutral fill is the mean of all prices, 0 without any. */
  lemma NeutralIsMean(prices: QuarterMap, rules: Rules)
    ensures var keys, neutral := Ascending(prices.Keys), IndexOf(prices, rules).neutral;
      && (forall i :: 0 <= i < |keys| ==> keys[i] in prices)
      && (keys == [] ==> neutral == 0.0)
      && (keys != [] ==> neutral * |keys| as real == TotalOf(prices, keys, |keys|))
  {
    hide Ascending, TotalOf;
    KeysInMap(prices);
    var keys := Ascending(prices.Keys);
    if keys != [] {
      MeanTimesCount(TotalOf(prices, keys, |keys|), |keys|);
    }
  }

  // --- The calendar ------------------------------------------------------------------------------

  /** A Saturday and the Sunday after it. */
  const SATURDAY := Date(1970, 1, 3)

  lemma SaturdayNumber()
    ensures SATURDAY.Valid() && SATURDAY.Number() == 2
  {
  }

  /** On the UTC date d, the hour column pair is the angle of the full hours since
      midnight, the weekday pair is the angle of the days since Sunday, and the last
      column marks Saturday and Sunday. */
  lemma CalendarColumns(at: int, ctx: Context, index: PriceIndex, rules: Rules, d: Date, hour: nat)
    requires d.Valid() && hour < 24
    requires d.Number() * DAY_MS + hour * HOUR_MS <= at < d.Number() * DAY_MS + (hour + 1) * HOUR_MS
    ensures SATURDAY.Valid()
    ensures var row, sinceSaturday := AssembleFeatures(at, ctx, index, rules), d.Number() - SATURDAY.Number();
      && row[16] == rules.cyclical(hour, 24).0 && row[17] == rules.cyclical(hour, 24).1
      && row[18] == rules.cyclical((sinceSaturday - 1) % 7, 7).0 && row[19] == rules.cyclical((sinceSaturday - 1) % 7, 7).1
      && row[20] == if sinceSaturday % 7 == 0 || sinceSaturday % 7 == 1 then 1.0 else 0.0
  {
    SaturdayNumber();
    HourAndWeekday(at, d.Number(), hour);
    hide Offset, ValueOr, Lag, UtcHour, UtcWeekday, LastBefore, Date.Number;
  }

  lemma HourAndWeekday(at: int, day: int, hour: nat)
    requires hour < 24 && day * DAY_MS + hour * HOUR_MS <= at < day * DAY_MS + (hour + 1) * HOUR_MS
    ensures UtcHour(at) == hour && UtcWeekday(at) == (day - 2 - 1) % 7
    ensures UtcWeekday(at) == 0 || UtcWeekday(at) == 6 <==> (day - 2) % 7 == 0 || (day - 2) % 7 == 1
  {
    assert at / DAY_MS == day && at % DAY_MS == at - day * DAY_MS;
    assert (day + 4) % 7 == (day - 3) % 7;
  }
}

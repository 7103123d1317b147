/** The tail extension and the gap fill of a grid series from earlier weeks. */
module Tails {
  import opened Ordered
  import opened Quarters

  const GAP_FILL_LOOKBACK_WEEKS: nat := 4

  datatype Seen = Seen(sum: real, count: nat) {
    function Mean(): real {
      if count == 0 then 0.0 else sum / count as real
    }
  }

  /** The same weekday and quarter, some weeks earlier. */
  function WeeksBack(q: int, weeks: nat): int {
    Floor(q - weeks * WEEK_MS)
  }

  /** Some weeks back is the same time of the same weekday, seven days a week earlier. */
  lemma WeeksBackKeepsTime(q: int, weeks: nat)
    requires Aligned(q)
    ensures WeeksBack(q, weeks) == q - weeks * 7 * 24 * 60 * 60 * 1000
    ensures UtcWeekday(WeeksBack(q, weeks)) == UtcWeekday(q)
    ensures WeeksBack(q, weeks) % DAY_MS == q % DAY_MS
  {
    var days := 7 * weeks;
    DaysBack(q, days);
    hide Floor, Aligned;
    assert WeeksBack(q, weeks) == q - days * DAY_MS;
  }

  lemma DaysBack(q: int, days: int)
    requires Aligned(q)
    ensures var back := q - days * DAY_MS;
      && Floor(back) == back && back / DAY_MS == q / DAY_MS - days && back % DAY_MS == q % DAY_MS
  {
    var day, back := q / DAY_MS, q - days * DAY_MS;
    assert back == (day - days) * DAY_MS + q % DAY_MS;
    assert back == (q / QUARTER_MS - days * 96) * QUARTER_MS;
  }

  function With(s: Seen, actual: QuarterMap, q: int): Seen {
    if q in actual then Seen(s.sum + actual[q], s.count + 1) else s
  }

  /** The values of the last weeks that the actuals hold. */
  function LastWeeks(actual: QuarterMap, q: int, weeks: nat): Seen {
    if weeks == 0 then Seen(0.0, 0) else With(LastWeeks(actual, q, weeks - 1), actual, WeeksBack(q, weeks))
  }

  /** The values of the nearest weeks that the actuals hold, at most `wanted` of
      them, within the lookback. */
  function NearestWeeks(actual: QuarterMap, q: int, lookback: nat, wanted: nat): Seen {
    if lookback == 0 then Seen(0.0, 0)
    else
      var nearer := NearestWeeks(actual, q, lookback - 1, wanted);
      if nearer.count == wanted then nearer else With(nearer, actual, WeeksBack(q, lookback))
  }

  function LookbackOf(weeks: nat): nat {
    if weeks > GAP_FILL_LOOKBACK_WEEKS then weeks else GAP_FILL_LOOKBACK_WEEKS
  }

  // --- The loops -----------------------------------------------------------------------------------

  /** The extension keeps the forecast and adds the mean of the last weeks to
      every later quarter before the end that has one. */
  ghost predicate IsExtended(r: QuarterMap, forecast: QuarterMap, actual: QuarterMap, last: int, end: int, weeks: nat) {
    && (forall q :: q in r <==> q in forecast || (last < q < end && Aligned(q) && LastWeeks(actual, q, weeks).count > 0))
    && (forall q :: q in r ==> r[q] == if q in forecast then forecast[q] else LastWeeks(actual, q, weeks).Mean())
  }

  ghost predicate AllAligned(m: QuarterMap) {
    forall q :: q in m ==> Aligned(q)
  }

  lemma NextAligned(q: int)
    requires Aligned(q)
    ensures Aligned(q + QUARTER_MS)
    ensures forall p :: q < p < q + QUARTER_MS ==> !Aligned(p)
  {
  }

  method ExtendWithLastWeek(forecast: QuarterMap, actual: QuarterMap, end: int, weeks: nat) returns (r: QuarterMap)
    requires AllAligned(forecast)
    ensures forecast.Keys == {} ==> r == forecast
    ensures forecast.Keys != {} ==> IsExtended(r, forecast, actual, Max(forecast.Keys), end, weeks)
  {
    hide Aligned, WeeksBack;
    r := forecast;
    if forecast.Keys == {} {
      return;
    }
    var last := Max(forecast.Keys);
    assert last in forecast;
    var cursor := last + QUARTER_MS;
    NextAligned(last);
    while cursor < end
      invariant Aligned(cursor) && cursor > last
      invariant forall q :: q in r <==>
                  q in forecast || (last < q < cursor && q < end && Aligned(q) && LastWeeks(actual, q, weeks).count > 0)
      invariant forall q :: q in r ==> r[q] == if q in forecast then forecast[q] else LastWeeks(actual, q, weeks).Mean()
      decreases end - cursor
    {
      var sum, found := 0.0, 0;
      for week := 1 to weeks + 1
        invariant Seen(sum, found) == LastWeeks(actual, cursor, week - 1)
      {
        var previous := WeeksBack(cursor, week);
        if previous in actual {
          sum := sum + actual[previous];
          found := found + 1;
        }
      }
      if found > 0 {
        r := r[cursor := sum / found as real];
      }
      NextAligned(cursor);
      cursor := cursor + QUARTER_MS;
    }
  }

  /** The fill holds the mean of the nearest weeks for every unknown quarter
      between the first actual and the end that has one. */
  ghost predicate IsFilled(r: QuarterMap, known: QuarterMap, actual: QuarterMap, first: int, end: int, weeks: nat) {
    && (forall q :: q in r <==>
          first <= q < end && Aligned(q) && q !in known && NearestWeeks(actual, q, LookbackOf(weeks), weeks).count > 0)
    && (forall q :: q in r ==> r[q] == NearestWeeks(actual, q, LookbackOf(weeks), weeks).Mean())
  }

  lemma {:induction false} FullStaysFull(actual: QuarterMap, q: int, week: nat, lookback: nat, wanted: nat)
    requires week <= lookback && NearestWeeks(actual, q, week, wanted).count == wanted
    ensures NearestWeeks(actual, q, lookback, wanted) == NearestWeeks(actual, q, week, wanted)
  {
    if week < lookback {
      FullStaysFull(actual, q, week, lookback - 1, wanted);
    }
  }

  method FillGapsFromEarlierWeeks(known: QuarterMap, actual: QuarterMap, end: int, weeks: nat) returns (r: QuarterMap)
    requires AllAligned(actual)
    ensures actual.Keys == {} || weeks == 0 ==> r == map[]
    ensures actual.Keys != {} && weeks > 0 ==> IsFilled(r, known, actual, Min(actual.Keys), end, weeks)
  {
    hide Aligned, WeeksBack;
    r := map[];
    if actual.Keys == {} || weeks == 0 {
      return;
    }
    var lookback := LookbackOf(weeks);
    var first := Min(actual.Keys);
    assert first in actual;
    var cursor := first;
    while cursor < end
      invariant Aligned(cursor) && cursor >= first
      invariant forall q :: q in r <==>
                  (first <= q < cursor && q < end && Aligned(q) && q !in known
                   && NearestWeeks(actual, q, lookback, weeks).count > 0)
      invariant forall q :: q in r ==> r[q] == NearestWeeks(actual, q, lookback, weeks).Mean()
      decreases end - cursor
    {
      if cursor !in known {
        var sum, found := 0.0, 0;
        var week := 1;
        while week <= lookback && found != weeks
          invariant 1 <= week <= lookback + 1
          invariant Seen(sum, found) == NearestWeeks(actual, cursor, week - 1, weeks)
        {
          var previous := WeeksBack(cursor, week);
          if previous in actual {
            sum := sum + actual[previous];
            found := found + 1;
          }
          week := week + 1;
        }
        if found == weeks {
          FullStaysFull(actual, cursor, week - 1, lookback, weeks);
        }
        if found > 0 {
          r := r[cursor := sum / found as real];
        }
      }
      NextAligned(cursor);
      cursor := cursor + QUARTER_MS;
    }
  }

  // --- The fill against the extension ---------------------------------------------------------------

  /** The weeks up to a bound that the actuals hold. */
  function Held(actual: QuarterMap, q: int, weeks: nat): nat {
    LastWeeks(actual, q, weeks).count
  }

  /** Up to the wanted number the fill and the extension see the same values. */
  lemma {:induction false} SameWhileWanted(actual: QuarterMap, q: int, n: nat, wanted: nat)
    requires Held(actual, q, n) <= wanted
    ensures NearestWeeks(actual, q, n, wanted) == LastWeeks(actual, q, n)
  {
    hide WeeksBack;
    if n > 0 {
      SameWhileWanted(actual, q, n - 1, wanted);
    }
  }

  lemma {:induction false} HeldAtMost(actual: QuarterMap, q: int, n: nat)
    ensures Held(actual, q, n) <= n
  {
    if n > 0 {
      HeldAtMost(actual, q, n - 1);
    }
  }

  lemma {:induction false} HeldAscends(actual: QuarterMap, q: int, n: nat, m: nat)
    requires n <= m
    ensures Held(actual, q, n) <= Held(actual, q, m)
  {
    if n < m {
      HeldAscends(actual, q, n, m - 1);
    }
  }

  /** The fill takes as many weeks as it wants, or all that the lookback holds. */
  lemma {:induction false} FillTakesNearest(actual: QuarterMap, q: int, lookback: nat, wanted: nat)
    ensures NearestWeeks(actual, q, lookback, wanted).count ==
      if Held(actual, q, lookback) <= wanted then Held(actual, q, lookback) else wanted
  {
    hide WeeksBack;
    if lookback > 0 {
      FillTakesNearest(actual, q, lookback - 1, wanted);
    }
  }

  /** A quarter whose first weeks all hold a value has the same fill and
      extension; so has one without a value in the older weeks of the lookback. */
  lemma FillEqualsExtension(actual: QuarterMap, q: int, weeks: nat)
    requires Held(actual, q, weeks) == weeks || Held(actual, q, LookbackOf(weeks)) == Held(actual, q, weeks)
    ensures NearestWeeks(actual, q, LookbackOf(weeks), weeks) == LastWeeks(actual, q, weeks)
  {
    hide WeeksBack, LastWeeks, NearestWeeks;
    HeldAtMost(actual, q, weeks);
    SameWhileWanted(actual, q, weeks, weeks);
    if Held(actual, q, weeks) == weeks {
      FullStaysFull(actual, q, weeks, LookbackOf(weeks), weeks);
    } else {
      NoMoreHeld(actual, q, weeks, LookbackOf(weeks));
      SameWhileWanted(actual, q, LookbackOf(weeks), weeks);
    }
  }

  lemma {:induction false} NoMoreHeld(actual: QuarterMap, q: int, n: nat, m: nat)
    requires n <= m && Held(actual, q, n) == Held(actual, q, m)
    ensures LastWeeks(actual, q, n) == LastWeeks(actual, q, m)
  {
    hide WeeksBack;
    if n < m {
      HeldAscends(actual, q, n, m - 1);
      NoMoreHeld(actual, q, n, m - 1);
    }
  }

  /** The two see the same number of values only then. */
  lemma FillDiffersOtherwise(actual: QuarterMap, q: int, weeks: nat)
    requires Held(actual, q, weeks) < weeks && Held(actual, q, weeks) < Held(actual, q, LookbackOf(weeks))
    ensures NearestWeeks(actual, q, LookbackOf(weeks), weeks).count > LastWeeks(actual, q, weeks).count
  {
    FillTakesNearest(actual, q, LookbackOf(weeks), weeks);
  }

  /** Wherever the extension has a value, the fill has one. */
  lemma FillCoversExtension(actual: QuarterMap, q: int, weeks: nat)
    requires weeks > 0 && LastWeeks(actual, q, weeks).count > 0
    ensures NearestWeeks(actual, q, LookbackOf(weeks), weeks).count > 0
  {
    HeldAscends(actual, q, weeks, LookbackOf(weeks));
    FillTakesNearest(actual, q, LookbackOf(weeks), weeks);
  }
}

/** Price windows and the cheapest contiguous window of total prices. Prices
    are exact reals. */
module CheapestWindow {
  import opened Common
  import opened Rounding
  import LinearAlgebra

  datatype PriceEntry = PriceEntry(start: int, end: int, total: real) {
    function Minutes(): real {
      (end - start) as real / 60000.0
    }
  }

  /** A total price of a delivery interval that is not empty. */
  type TotalPrice = p: PriceEntry | p.start < p.end witness PriceEntry(0, 1, 0.0)

  datatype PriceWindow = PriceWindow(start: int, end: int, min: real, max: real, average: real, prices: seq<TotalPrice>)

  // --- Runs ------------------------------------------------------------------------------------

  ghost predicate GapFree(prices: seq<TotalPrice>, start: nat, end: nat)
    requires end <= |prices|
  {
    forall i :: start < i < end ==> prices[i].start == prices[i - 1].end
  }

  function Minutes(prices: seq<TotalPrice>, start: nat, end: nat): real
    requires start <= end <= |prices|
  {
    if start == end then 0.0 else Minutes(prices, start, end - 1) + prices[end - 1].Minutes()
  }

  function Weighted(prices: seq<TotalPrice>, start: nat, end: nat): real
    requires start <= end <= |prices|
  {
    if start == end then 0.0
    else Weighted(prices, start, end - 1) + prices[end - 1].total * prices[end - 1].Minutes()
  }

  function Average(prices: seq<TotalPrice>, start: nat, end: nat): real
    requires start < end <= |prices|
  {
    MinutesPositive(prices, start, end);
    Weighted(prices, start, end) / Minutes(prices, start, end)
  }

  lemma {:induction false} MinutesPositive(prices: seq<TotalPrice>, start: nat, end: nat)
    requires start <= end <= |prices|
    ensures start < end ==> Minutes(prices, start, end) > 0.0
  {
    if start < end {
      MinutesPositive(prices, start, end - 1);
      assert prices[end - 1].start < prices[end - 1].end;
    }
  }

  lemma {:induction false} LongerLastsLonger(prices: seq<TotalPrice>, start: nat, mid: nat, end: nat)
    requires start <= mid <= end <= |prices|
    ensures Minutes(prices, start, mid) <= Minutes(prices, start, end)
    ensures mid < end ==> Minutes(prices, start, mid) < Minutes(prices, start, end)
  {
    if mid < end {
      LongerLastsLonger(prices, start, mid, end - 1);
      assert prices[end - 1].start < prices[end - 1].end;
    }
  }

  /** A gap-free run that lasts the duration, and no longer than it must. */
  ghost predicate IsWindow(prices: seq<TotalPrice>, duration: nat, start: nat, end: nat) {
    && start < end <= |prices| && GapFree(prices, start, end)
    && Minutes(prices, start, end) >= duration as real
    && Minutes(prices, start, end - 1) < duration as real
  }

  ghost predicate Lasts(prices: seq<TotalPrice>, duration: nat, start: nat, end: nat) {
    start < end <= |prices| && GapFree(prices, start, end) && Minutes(prices, start, end) >= duration as real
  }

  /** Each start has at most one window, and a run that lasts the duration holds
      the window of its start. */
  lemma WindowIsUnique(prices: seq<TotalPrice>, duration: nat, start: nat, end: nat, end': nat)
    requires IsWindow(prices, duration, start, end) && IsWindow(prices, duration, start, end')
    ensures end == end'
  {
    if end < end' {
      LongerLastsLonger(prices, start, end, end' - 1);
    } else if end' < end {
      LongerLastsLonger(prices, start, end', end - 1);
    }
  }

  lemma {:induction false} RunHoldsWindow(prices: seq<TotalPrice>, duration: nat, start: nat, end: nat) returns (first: nat)
    requires duration > 0 && Lasts(prices, duration, start, end)
    ensures first <= end && IsWindow(prices, duration, start, first)
    decreases end
  {
    if Minutes(prices, start, end - 1) < duration as real {
      first := end;
    } else {
      first := RunHoldsWindow(prices, duration, start, end - 1);
    }
  }

  // --- The summary of a window ------------------------------------------------------------------

  ghost predicate Bounds(prices: seq<TotalPrice>, lo: real, hi: real) {
    forall i :: 0 <= i < |prices| ==> lo <= prices[i].total <= hi
  }

  ghost predicate Attained(prices: seq<TotalPrice>, x: real) {
    exists i :: 0 <= i < |prices| && prices[i].total == x
  }

  lemma {:induction false} WeightedBetween(prices: seq<TotalPrice>, lo: real, hi: real, end: nat)
    requires Bounds(prices, lo, hi) && end <= |prices|
    ensures lo * Minutes(prices, 0, end) <= Weighted(prices, 0, end) <= hi * Minutes(prices, 0, end)
  {
    if end > 0 {
      WeightedBetween(prices, lo, hi, end - 1);
      var p := prices[end - 1];
      var below, above := LinearAlgebra.Times(p.total - lo, p.Minutes()), LinearAlgebra.Times(hi - p.total, p.Minutes());
      assert p.start < p.end;
      assert below >= 0.0 && above >= 0.0;
      assert below == p.total * p.Minutes() - lo * p.Minutes();
      assert above == hi * p.Minutes() - p.total * p.Minutes();
      var before := Minutes(prices, 0, end - 1);
      assert lo * (before + p.Minutes()) == lo * before + lo * p.Minutes();
      assert hi * (before + p.Minutes()) == hi * before + hi * p.Minutes();
    }
  }

  /** The time-weighted average lies between the lowest and the highest price. */
  lemma AverageBetween(prices: seq<TotalPrice>, lo: real, hi: real)
    requires Bounds(prices, lo, hi) && prices != []
    ensures lo <= Average(prices, 0, |prices|) <= hi
  {
    hide Weighted, Minutes;
    var n := |prices|;
    WeightedBetween(prices, lo, hi, n);
    MinutesPositive(prices, 0, n);
    LinearAlgebra.QuotientBetween(Weighted(prices, 0, n), Minutes(prices, 0, n), lo, hi);
  }

  /** The window of the prices in their order, or none when there are none. */
  method BuildPriceWindow(prices: seq<TotalPrice>) returns (w: Option<PriceWindow>)
    ensures w.None? <==> prices == []
    ensures w.Some? ==>
      && w.value.prices == prices
      && w.value.start == prices[0].start && w.value.end == prices[|prices| - 1].end
      && w.value.average == Round3(Average(prices, 0, |prices|))
      && w.value.min <= w.value.average <= w.value.max
    ensures w.Some? ==>
      exists lo, hi :: Bounds(prices, lo, hi) && Attained(prices, lo) && Attained(prices, hi)
        && w.value.min == Round3(lo) && w.value.max == Round3(hi)
  {
    if |prices| == 0 {
      return None;
    }
    hide Minutes, Weighted, Round3;
    var weightedSum, totalMinutes := 0.0, 0.0;
    var min, max := prices[0].total, prices[0].total;
    MinutesEmpty(prices, 0);
    for i := 0 to |prices|
      invariant weightedSum == Weighted(prices, 0, i) && totalMinutes == Minutes(prices, 0, i)
      invariant forall k :: 0 <= k < i ==> min <= prices[k].total <= max
      invariant Attained(prices, min) && Attained(prices, max)
    {
      var entry := prices[i];
      MinutesStep(prices, 0, i);
      weightedSum := weightedSum + entry.total * entry.Minutes();
      totalMinutes := totalMinutes + entry.Minutes();
      if entry.total < min {
        min := entry.total;
      }
      if entry.total > max {
        max := entry.total;
      }
    }
    MinutesPositive(prices, 0, |prices|);
    var average := if totalMinutes > 0.0 then weightedSum / totalMinutes else 0.0;
    AverageBetween(prices, min, max);
    Round3Monotone(min, average);
    Round3Monotone(average, max);
    w := Some(PriceWindow(prices[0].start, prices[|prices| - 1].end, Round3(min), Round3(max), Round3(average), prices));
  }

  lemma MinutesEmpty(prices: seq<TotalPrice>, start: nat)
    requires start <= |prices|
    ensures Minutes(prices, start, start) == 0.0 && Weighted(prices, start, start) == 0.0
  {
  }

  lemma MinutesStep(prices: seq<TotalPrice>, start: nat, end: nat)
    requires start <= end < |prices|
    ensures Minutes(prices, start, end + 1) == Minutes(prices, start, end) + prices[end].Minutes()
    ensures Weighted(prices, start, end + 1) == Weighted(prices, start, end) + prices[end].total * prices[end].Minutes()
  {
  }

  // --- The cheapest window --------------------------------------------------------------------------

  /** The window with the lowest average, and the earliest of them. */
  ghost predicate IsCheapest(prices: seq<TotalPrice>, duration: nat, start: nat, end: nat) {
    && IsWindow(prices, duration, start, end)
    && forall s: nat, e: nat :: IsWindow(prices, duration, s, e) ==>
         Average(prices, start, end) <= Average(prices, s, e)
         && (s < start ==> Average(prices, start, end) < Average(prices, s, e))
  }

  /** The best of the windows that start before limit. */
  ghost predicate BestBefore(prices: seq<TotalPrice>, duration: nat, limit: nat, best: Option<(nat, nat)>) {
    match best
    case None => forall s: nat, e: nat :: s < limit ==> !IsWindow(prices, duration, s, e)
    case Some((start, end)) =>
      && start < limit && IsWindow(prices, duration, start, end)
      && forall s: nat, e: nat :: s < limit && IsWindow(prices, duration, s, e) ==>
           Average(prices, start, end) <= Average(prices, s, e)
           && (s < start ==> Average(prices, start, end) < Average(prices, s, e))
  }

  /** The window that starts at start, if there is one. */
  method WindowFrom(prices: seq<TotalPrice>, duration: nat, start: nat) returns (end: Option<nat>, average: real)
    requires duration > 0 && start < |prices|
    ensures end.Some? ==> IsWindow(prices, duration, start, end.value) && average == Average(prices, start, end.value)
    ensures end.None? ==> forall e: nat :: !IsWindow(prices, duration, start, e)
  {
    hide Minutes, Weighted;
    var accumulatedMinutes, weightedSum := 0.0, 0.0;
    var previousEnd: Option<int> := None;
    average := 0.0;
    MinutesEmpty(prices, start);
    for index := start to |prices|
      invariant accumulatedMinutes == Minutes(prices, start, index) && weightedSum == Weighted(prices, start, index)
      invariant previousEnd == if index == start then None else Some(prices[index - 1].end)
      invariant GapFree(prices, start, index)
      invariant accumulatedMinutes < duration as real
    {
      var entry := prices[index];
      if previousEnd.Some? && entry.start != previousEnd.value {
        NoWindowPast(prices, duration, start, index);
        return None, 0.0;
      }
      MinutesStep(prices, start, index);
      var minutes := entry.Minutes();
      accumulatedMinutes := accumulatedMinutes + minutes;
      weightedSum := weightedSum + entry.total * minutes;
      previousEnd := Some(entry.end);
      if accumulatedMinutes >= duration as real {
        average := weightedSum / accumulatedMinutes;
        return Some(index + 1), average;
      }
    }
    NoWindowPast(prices, duration, start, |prices|);
    end := None;
  }

  /** No window starts here when the gap-free run is too short. */
  lemma NoWindowPast(prices: seq<TotalPrice>, duration: nat, start: nat, limit: nat)
    requires start <= limit <= |prices| && Minutes(prices, start, limit) < duration as real
    requires limit < |prices| ==> start < limit && prices[limit].start != prices[limit - 1].end
    ensures forall e: nat :: !IsWindow(prices, duration, start, e)
  {
    forall e: nat | IsWindow(prices, duration, start, e)
      ensures false
    {
      if e <= limit {
        LongerLastsLonger(prices, start, e, limit);
      }
    }
  }

  /** The cheapest window that lasts the duration. */
  method FindCheapestWindow(prices: seq<TotalPrice>, duration: nat)
    returns (w: Option<PriceWindow>, ghost best: Option<(nat, nat)>)
    ensures w.Some? <==> best.Some?
    ensures best.Some? ==>
      && IsCheapest(prices, duration, best.value.0, best.value.1)
      && w.value.prices == prices[best.value.0..best.value.1]
      && w.value.start == prices[best.value.0].start && w.value.end == prices[best.value.1 - 1].end
      && w.value.average == Round3(Average(prices, best.value.0, best.value.1))
    ensures best.Some? ==>
      exists lo, hi :: Bounds(w.value.prices, lo, hi) && Attained(w.value.prices, lo) && Attained(w.value.prices, hi)
        && w.value.min == Round3(lo) && w.value.max == Round3(hi)
    ensures w.None? <==> duration == 0 || forall s: nat, e: nat :: !Lasts(prices, duration, s, e)
  {
    hide Average, GapFree, IsWindow;
    best := None;
    if |prices| == 0 || duration == 0 {
      NothingLasts(prices, duration);
      return None, None;
    }
    var bestAverage := 0.0;
    var found: Option<(nat, nat)> := None;
    for startIndex := 0 to |prices|
      invariant BestBefore(prices, duration, startIndex, found)
      invariant found.Some? ==> (found.value.0 < found.value.1 <= |prices|
                                 && bestAverage == Average(prices, found.value.0, found.value.1))
    {
      var end, average := WindowFrom(prices, duration, startIndex);
      if end.Some? {
        WindowInside(prices, duration, startIndex, end.value);
      }
      if end.Some? && (found.None? || average < bestAverage) {
        BetterBest(prices, duration, startIndex, found, Some((startIndex, end.value)));
        bestAverage := average;
        found := Some((startIndex, end.value));
      } else {
        SameBest(prices, duration, startIndex, found, end);
      }
    }
    best := found;
    OnlyInsideWindows(prices, duration);
    if found.None? {
      forall s: nat, e: nat
        ensures !Lasts(prices, duration, s, e)
      {
        if Lasts(prices, duration, s, e) {
          var first := RunHoldsWindow(prices, duration, s, e);
        }
      }
      return None, None;
    }
    var window := prices[found.value.0..found.value.1];
    WindowLasts(prices, duration, found.value.0, found.value.1);
    w := BuildPriceWindow(window);
    SliceAverage(prices, found.value.0, found.value.1);
  }

  lemma {:induction false} SliceSums(prices: seq<TotalPrice>, start: nat, end: nat, k: nat)
    requires start + k <= end <= |prices|
    ensures Minutes(prices[start..end], 0, k) == Minutes(prices, start, start + k)
    ensures Weighted(prices[start..end], 0, k) == Weighted(prices, start, start + k)
  {
    if k > 0 {
      SliceSums(prices, start, end, k - 1);
    }
  }

  lemma SliceAverage(prices: seq<TotalPrice>, start: nat, end: nat)
    requires start < end <= |prices|
    ensures Average(prices[start..end], 0, end - start) == Average(prices, start, end)
  {
    hide Minutes, Weighted;
    SliceSums(prices, start, end, end - start);
  }

  lemma NothingLasts(prices: seq<TotalPrice>, duration: nat)
    ensures prices == [] ==> forall s: nat, e: nat :: !Lasts(prices, duration, s, e)
  {
  }

  lemma WindowInside(prices: seq<TotalPrice>, duration: nat, start: nat, end: nat)
    requires IsWindow(prices, duration, start, end)
    ensures start < end <= |prices|
  {
  }

  lemma OnlyInsideWindows(prices: seq<TotalPrice>, duration: nat)
    ensures forall s: nat, e: nat :: IsWindow(prices, duration, s, e) ==> s < |prices|
  {
  }

  lemma WindowLasts(prices: seq<TotalPrice>, duration: nat, start: nat, end: nat)
    requires IsWindow(prices, duration, start, end)
    ensures Lasts(prices, duration, start, end)
  {
  }

  lemma BetterBest(prices: seq<TotalPrice>, duration: nat, limit: nat, best: Option<(nat, nat)>, better: Option<(nat, nat)>)
    requires BestBefore(prices, duration, limit, best)
    requires better.Some? && better.value.0 == limit && IsWindow(prices, duration, limit, better.value.1)
    requires best.Some? ==> Average(prices, limit, better.value.1) < Average(prices, best.value.0, best.value.1)
    ensures BestBefore(prices, duration, limit + 1, better)
  {
    hide Average, GapFree;
    forall s: nat, e: nat | s < limit + 1 && IsWindow(prices, duration, s, e)
      ensures Average(prices, limit, better.value.1) <= Average(prices, s, e)
      ensures s < limit ==> Average(prices, limit, better.value.1) < Average(prices, s, e)
    {
      if s == limit {
        WindowIsUnique(prices, duration, s, e, better.value.1);
      }
    }
  }

  lemma SameBest(prices: seq<TotalPrice>, duration: nat, limit: nat, best: Option<(nat, nat)>, end: Option<nat>)
    requires BestBefore(prices, duration, limit, best)
    requires end.None? ==> forall e: nat :: !IsWindow(prices, duration, limit, e)
    requires end.Some? ==> (IsWindow(prices, duration, limit, end.value) && best.Some?
                            && Average(prices, limit, end.value) >= Average(prices, best.value.0, best.value.1))
    ensures BestBefore(prices, duration, limit + 1, best)
  {
    hide Average, GapFree;
    forall s: nat, e: nat | s < limit + 1 && IsWindow(prices, duration, s, e)
      ensures best.Some? && Average(prices, best.value.0, best.value.1) <= Average(prices, s, e)
      ensures best.Some? && s < best.value.0 ==> Average(prices, best.value.0, best.value.1) < Average(prices, s, e)
    {
      if s == limit && end.Some? {
        WindowIsUnique(prices, duration, s, e, end.value);
      }
    }
  }

  // --- Longer runs ----------------------------------------------------------------------------------------

  /** The run from the first cut to the last one is made of whole windows. */
  ghost predicate CutIntoWindows(prices: seq<TotalPrice>, duration: nat, cuts: seq<nat>) {
    |cuts| > 1 && forall k :: 0 < k < |cuts| ==> IsWindow(prices, duration, cuts[k - 1], cuts[k])
  }

  lemma {:induction false} SumsJoin(prices: seq<TotalPrice>, start: nat, mid: nat, end: nat)
    requires start <= mid <= end <= |prices|
    ensures Minutes(prices, start, end) == Minutes(prices, start, mid) + Minutes(prices, mid, end)
    ensures Weighted(prices, start, end) == Weighted(prices, start, mid) + Weighted(prices, mid, end)
  {
    if mid < end {
      SumsJoin(prices, start, mid, end - 1);
    }
  }

  lemma CutsAscend(prices: seq<TotalPrice>, duration: nat, cuts: seq<nat>, k: nat)
    requires CutIntoWindows(prices, duration, cuts) && 0 < k < |cuts|
    ensures cuts[0] < cuts[k] <= |prices|
  {
    assert IsWindow(prices, duration, cuts[k - 1], cuts[k]);
    if k > 1 {
      CutsAscend(prices, duration, cuts, k - 1);
    }
  }

  lemma {:induction false} WindowsWeighAtLeast(prices: seq<TotalPrice>, duration: nat, cuts: seq<nat>, best: real, k: nat)
    requires CutIntoWindows(prices, duration, cuts) && 0 < k < |cuts|
    requires forall s: nat, e: nat :: IsWindow(prices, duration, s, e) ==> best <= Average(prices, s, e)
    ensures cuts[0] < cuts[k] <= |prices|
    ensures Weighted(prices, cuts[0], cuts[k]) >= best * Minutes(prices, cuts[0], cuts[k])
  {
    hide Minutes, Weighted, GapFree;
    CutsAscend(prices, duration, cuts, k);
    var s, e := cuts[k - 1], cuts[k];
    assert IsWindow(prices, duration, s, e);
    MinutesPositive(prices, s, e);
    AtLeastAverage(Weighted(prices, s, e), Minutes(prices, s, e), best);
    if k > 1 {
      WindowsWeighAtLeast(prices, duration, cuts, best, k - 1);
      SumsJoin(prices, cuts[0], s, e);
      assert best * (Minutes(prices, cuts[0], s) + Minutes(prices, s, e))
          == best * Minutes(prices, cuts[0], s) + best * Minutes(prices, s, e);
    }
  }

  lemma AtLeastAverage(w: real, m: real, x: real)
    requires m > 0.0 && x <= w / m
    ensures w >= x * m
  {
    var q := w / m;
    assert q * m == w;
    var gap := LinearAlgebra.Times(q - x, m);
    assert gap == w - x * m;
  }

  /** No run made of whole windows is cheaper than the cheapest window. */
  lemma WholeWindowsAreNotCheaper(prices: seq<TotalPrice>, duration: nat, start: nat, end: nat, cuts: seq<nat>)
    requires IsCheapest(prices, duration, start, end) && CutIntoWindows(prices, duration, cuts)
    ensures cuts[0] < cuts[|cuts| - 1] <= |prices|
    ensures Average(prices, start, end) <= Average(prices, cuts[0], cuts[|cuts| - 1])
  {
    hide Minutes, Weighted, GapFree, Average;
    var best, s, e := Average(prices, start, end), cuts[0], cuts[|cuts| - 1];
    WindowsWeighAtLeast(prices, duration, cuts, best, |cuts| - 1);
    MinutesPositive(prices, s, e);
    AverageAtLeast(prices, s, e, best);
  }

  lemma AverageAtLeast(prices: seq<TotalPrice>, s: nat, e: nat, best: real)
    requires s < e <= |prices| && Weighted(prices, s, e) >= best * Minutes(prices, s, e)
    ensures Average(prices, s, e) >= best
  {
    MinutesPositive(prices, s, e);
    var w, m, q := Weighted(prices, s, e), Minutes(prices, s, e), Average(prices, s, e);
    assert q * m == w;
    var gap := LinearAlgebra.Times(best - q, m);
    assert gap == best * m - w;
  }

  // --- When no longer run is cheaper ----------------------------------------------------------------------

  /** No run that lasts the duration is cheaper than the average. */
  ghost predicate NoRunBelow(prices: seq<TotalPrice>, duration: nat, average: real) {
    forall s: nat, e: nat :: Lasts(prices, duration, s, e) ==> average <= Average(prices, s, e)
  }

  /** A gap-free run made of one window and a tail shorter than the duration. */
  ghost predicate WindowWithTail(prices: seq<TotalPrice>, duration: nat, start: nat, mid: nat, end: nat) {
    && IsWindow(prices, duration, start, mid)
    && mid <= end <= |prices| && GapFree(prices, start, end)
    && Minutes(prices, mid, end) < duration as real
  }

  lemma WindowWithTailLasts(prices: seq<TotalPrice>, duration: nat, start: nat, mid: nat, end: nat)
    requires WindowWithTail(prices, duration, start, mid, end)
    ensures Lasts(prices, duration, start, end)
  {
    LongerLastsLonger(prices, start, mid, end);
  }

  /** A long run is windows one after the other and, at its end, one with a tail. */
  lemma {:induction false} RunWeighsAtLeast(prices: seq<TotalPrice>, duration: nat, best: real, start: nat, end: nat)
    requires duration > 0 && Lasts(prices, duration, start, end)
    requires forall s: nat, e: nat :: IsWindow(prices, duration, s, e) ==> best <= Average(prices, s, e)
    requires forall s: nat, m: nat, e: nat :: WindowWithTail(prices, duration, s, m, e) ==> best <= Average(prices, s, e)
    ensures Weighted(prices, start, end) >= best * Minutes(prices, start, end)
    decreases end - start
  {
    hide Weighted, Average;
    MinutesPositive(prices, start, end);
    var mid := RunHoldsWindow(prices, duration, start, end);
    if Minutes(prices, mid, end) < duration as real {
      assert WindowWithTail(prices, duration, start, mid, end);
      WeighsAtLeast(prices, start, end, best);
    } else {
      MinutesEmpty(prices, end);
      assert Lasts(prices, duration, mid, end);
      RunWeighsAtLeast(prices, duration, best, mid, end);
      WeighsAtLeast(prices, start, mid, best);
      SumsJoin(prices, start, mid, end);
      assert best * (Minutes(prices, start, mid) + Minutes(prices, mid, end))
          == best * Minutes(prices, start, mid) + best * Minutes(prices, mid, end);
    }
  }

  lemma WeighsAtLeast(prices: seq<TotalPrice>, start: nat, end: nat, best: real)
    requires start < end <= |prices| && best <= Average(prices, start, end)
    ensures Weighted(prices, start, end) >= best * Minutes(prices, start, end)
  {
    hide Weighted, Minutes;
    MinutesPositive(prices, start, end);
    AtLeastAverage(Weighted(prices, start, end), Minutes(prices, start, end), best);
  }

  /** The cheapest window is the cheapest of all runs that last the duration
      exactly when no window with a shorter tail behind it is cheaper. */
  lemma CheapestOfAllRuns(prices: seq<TotalPrice>, duration: nat, start: nat, end: nat)
    requires IsCheapest(prices, duration, start, end) && duration > 0
    ensures NoRunBelow(prices, duration, Average(prices, start, end)) <==>
      forall s: nat, m: nat, e: nat :: WindowWithTail(prices, duration, s, m, e) ==>
        Average(prices, start, end) <= Average(prices, s, e)
  {
    hide Minutes, Weighted, GapFree, Average;
    var best := Average(prices, start, end);
    if NoRunBelow(prices, duration, best) {
      forall s: nat, m: nat, e: nat | WindowWithTail(prices, duration, s, m, e)
        ensures best <= Average(prices, s, e)
      {
        WindowWithTailLasts(prices, duration, s, m, e);
      }
    }
    if forall s: nat, m: nat, e: nat :: WindowWithTail(prices, duration, s, m, e) ==> best <= Average(prices, s, e) {
      forall s: nat, e: nat | Lasts(prices, duration, s, e)
        ensures best <= Average(prices, s, e)
      {
        RunWeighsAtLeast(prices, duration, best, s, e);
        AverageAtLeast(prices, s, e, best);
      }
    }
  }

  // --- Which intervals decide it ----------------------------------------------------------------------------

  /** The same delivery intervals, at any prices. */
  ghost predicate SameIntervals(a: seq<TotalPrice>, b: seq<TotalPrice>) {
    |a| == |b| && forall i :: 0 <= i < |a| ==> a[i].start == b[i].start && a[i].end == b[i].end
  }

  /** The run is windows one after the other. */
  ghost predicate MadeOfWindows(prices: seq<TotalPrice>, duration: nat, start: nat, end: nat) {
    exists cuts: seq<nat> ::
      CutIntoWindows(prices, duration, cuts) && cuts[0] == start && cuts[|cuts| - 1] == end
  }

  lemma {:induction false} SameMinutes(a: seq<TotalPrice>, b: seq<TotalPrice>, start: nat, end: nat)
    requires SameIntervals(a, b) && start <= end <= |a|
    ensures Minutes(a, start, end) == Minutes(b, start, end)
  {
    if start < end {
      SameMinutes(a, b, start, end - 1);
      assert a[end - 1].start == b[end - 1].start;
    }
  }

  lemma SameWindows(a: seq<TotalPrice>, b: seq<TotalPrice>, duration: nat, start: nat, end: nat)
    requires SameIntervals(a, b)
    ensures IsWindow(a, duration, start, end) <==> IsWindow(b, duration, start, end)
    ensures Lasts(a, duration, start, end) <==> Lasts(b, duration, start, end)
  {
    hide Minutes;
    if start < end <= |a| {
      SameMinutes(a, b, start, end);
      SameMinutes(a, b, start, end - 1);
    }
  }

  lemma SameCuts(a: seq<TotalPrice>, b: seq<TotalPrice>, duration: nat, cuts: seq<nat>)
    requires SameIntervals(a, b) && CutIntoWindows(a, duration, cuts)
    ensures CutIntoWindows(b, duration, cuts)
  {
    hide IsWindow;
    forall k | 0 < k < |cuts|
      ensures IsWindow(b, duration, cuts[k - 1], cuts[k])
    {
      SameWindows(a, b, duration, cuts[k - 1], cuts[k]);
    }
  }

  /** The places that whole windows from the start reach. */
  ghost predicate Reached(prices: seq<TotalPrice>, duration: nat, start: nat, at: nat)
    decreases at
  {
    at == start || exists before: nat :: before < at && Reached(prices, duration, start, before) && IsWindow(prices, duration, before, at)
  }

  lemma {:induction false} ReachedByCuts(prices: seq<TotalPrice>, duration: nat, start: nat, at: nat) returns (cuts: seq<nat>)
    requires Reached(prices, duration, start, at)
    ensures cuts != [] && cuts[0] == start && cuts[|cuts| - 1] == at
    ensures forall k :: 0 < k < |cuts| ==> IsWindow(prices, duration, cuts[k - 1], cuts[k])
    decreases at
  {
    hide IsWindow;
    if at == start {
      cuts := [start];
    } else {
      var before: nat :| before < at && Reached(prices, duration, start, before) && IsWindow(prices, duration, before, at);
      var front := ReachedByCuts(prices, duration, start, before);
      cuts := front + [at];
    }
  }

  lemma ReachedIsWhole(prices: seq<TotalPrice>, duration: nat, start: nat, end: nat)
    ensures start < end && Reached(prices, duration, start, end) ==> MadeOfWindows(prices, duration, start, end)
  {
    hide IsWindow;
    if start < end && Reached(prices, duration, start, end) {
      var cuts := ReachedByCuts(prices, duration, start, end);
      assert CutIntoWindows(prices, duration, cuts);
    }
  }

  ghost function Height(prices: seq<TotalPrice>, duration: nat, start: nat, at: nat): real {
    if Reached(prices, duration, start, at) then 1.0 else 0.0
  }

  /** Prices that climb at the places which windows reach, and fall behind them. */
  ghost function StepPrice(prices: seq<TotalPrice>, duration: nat, start: nat, i: nat): (p: TotalPrice)
    requires i < |prices|
    ensures p.start == prices[i].start && p.end == prices[i].end
    ensures p.total * p.Minutes() == Height(prices, duration, start, i + 1) - Height(prices, duration, start, i)
  {
    var entry := prices[i];
    assert entry.start < entry.end;
    PriceEntry(entry.start, entry.end,
      (Height(prices, duration, start, i + 1) - Height(prices, duration, start, i)) / entry.Minutes())
  }

  ghost function StepPrices(prices: seq<TotalPrice>, duration: nat, start: nat): (r: seq<TotalPrice>)
    ensures SameIntervals(prices, r)
    ensures forall i :: 0 <= i < |r| ==> r[i] == StepPrice(prices, duration, start, i)
  {
    seq(|prices|, i requires 0 <= i < |prices| => StepPrice(prices, duration, start, i))
  }

  lemma {:induction false} StepPricesWeigh(prices: seq<TotalPrice>, duration: nat, start: nat, s: nat, e: nat)
    requires s <= e <= |prices|
    ensures Weighted(StepPrices(prices, duration, start), s, e)
         == Height(prices, duration, start, e) - Height(prices, duration, start, s)
  {
    hide Height;
    var r := StepPrices(prices, duration, start);
    if s < e {
      StepPricesWeigh(prices, duration, start, s, e - 1);
      assert r[e - 1] == StepPrice(prices, duration, start, e - 1);
    }
  }

  lemma AverageSign(prices: seq<TotalPrice>, s: nat, e: nat)
    requires s < e <= |prices|
    ensures Average(prices, s, e) < 0.0 <==> Weighted(prices, s, e) < 0.0
  {
    hide Minutes, Weighted;
    MinutesPositive(prices, s, e);
    var w, m, q := Weighted(prices, s, e), Minutes(prices, s, e), Average(prices, s, e);
    assert q * m == w;
    if q >= 0.0 {
      var product := LinearAlgebra.Times(q, m);
    } else {
      var product := LinearAlgebra.Times(-q, m);
    }
  }

  lemma WindowsClimb(prices: seq<TotalPrice>, duration: nat, start: nat, s: nat, e: nat)
    requires IsWindow(prices, duration, s, e)
    ensures Height(prices, duration, start, s) <= Height(prices, duration, start, e)
  {
    WindowInside(prices, duration, s, e);
    hide IsWindow;
    if Reached(prices, duration, start, s) {
      assert Reached(prices, duration, start, e);
    }
  }

  /** At the step prices no window weighs less than 0. */
  lemma StepWindows(prices: seq<TotalPrice>, duration: nat, start: nat, s: nat, e: nat)
    requires IsWindow(StepPrices(prices, duration, start), duration, s, e)
    ensures s < e <= |prices| && Average(StepPrices(prices, duration, start), s, e) >= 0.0
  {
    var r := StepPrices(prices, duration, start);
    WindowInside(r, duration, s, e);
    hide *;
    SameWindows(prices, r, duration, s, e);
    StepPricesWeigh(prices, duration, start, s, e);
    WindowsClimb(prices, duration, start, s, e);
    AverageSign(r, s, e);
  }

  /** Among any windows there is a cheapest one. */
  lemma {:induction false} BestExists(prices: seq<TotalPrice>, duration: nat, limit: nat) returns (best: Option<(nat, nat)>)
    ensures BestBefore(prices, duration, limit, best)
  {
    hide Average, IsWindow;
    if limit == 0 {
      best := None;
    } else {
      var before := BestExists(prices, duration, limit - 1);
      var s := limit - 1;
      if e: nat :| IsWindow(prices, duration, s, e) {
        WindowInside(prices, duration, s, e);
        if before.Some? {
          WindowInside(prices, duration, before.value.0, before.value.1);
        }
        if before.None? || Average(prices, s, e) < Average(prices, before.value.0, before.value.1) {
          best := Some((s, e));
          BetterBest(prices, duration, s, before, best);
        } else {
          best := before;
          SameBest(prices, duration, s, before, Some(e));
        }
      } else {
        best := before;
        SameBest(prices, duration, s, before, None);
      }
    }
  }

  lemma CheapestExists(prices: seq<TotalPrice>, duration: nat, s: nat, e: nat) returns (start: nat, end: nat)
    requires IsWindow(prices, duration, s, e)
    ensures IsCheapest(prices, duration, start, end)
  {
    hide Average, IsWindow;
    OnlyInsideWindows(prices, duration);
    var best := BestExists(prices, duration, |prices|);
    start, end := best.value.0, best.value.1;
  }

  /** At some prices of the intervals a run that is not whole windows is cheaper
      than the cheapest window. */
  lemma CutRunCanBeCheaper(prices: seq<TotalPrice>, duration: nat, s: nat, e: nat)
    returns (priced: seq<TotalPrice>, start: nat, end: nat)
    requires duration > 0 && Lasts(prices, duration, s, e) && !MadeOfWindows(prices, duration, s, e)
    ensures SameIntervals(prices, priced)
    ensures IsCheapest(priced, duration, start, end) && Lasts(priced, duration, s, e)
    ensures Average(priced, s, e) < Average(priced, start, end)
  {
    hide Minutes, Weighted, GapFree;
    priced := StepPrices(prices, duration, s);
    ReachedIsWhole(prices, duration, s, e);
    var first := RunHoldsWindow(prices, duration, s, e);
    SameWindows(prices, priced, duration, s, first);
    SameWindows(prices, priced, duration, s, e);
    start, end := CheapestExists(priced, duration, s, first);
    StepWindows(prices, duration, s, start, end);
    StepPricesWeigh(prices, duration, s, s, e);
    MinutesPositive(priced, s, e);
    AverageSign(priced, s, e);
  }

  /** The cheapest window is the cheapest of all runs that last the duration. */
  ghost predicate FindsCheapestRun(prices: seq<TotalPrice>, duration: nat) {
    forall start: nat, end: nat :: IsCheapest(prices, duration, start, end) ==>
      NoRunBelow(prices, duration, Average(prices, start, end))
  }

  lemma WholeRunsAreNotCheaper(prices: seq<TotalPrice>, priced: seq<TotalPrice>, duration: nat, start: nat, end: nat)
    requires SameIntervals(prices, priced) && IsCheapest(priced, duration, start, end)
    requires forall s: nat, e: nat :: Lasts(prices, duration, s, e) ==> MadeOfWindows(prices, duration, s, e)
    ensures NoRunBelow(priced, duration, Average(priced, start, end))
  {
    hide Average, Minutes, Weighted, GapFree;
    forall s: nat, e: nat | Lasts(priced, duration, s, e)
      ensures Average(priced, start, end) <= Average(priced, s, e)
    {
      SameWindows(prices, priced, duration, s, e);
      var cuts: seq<nat> :| CutIntoWindows(prices, duration, cuts) && cuts[0] == s && cuts[|cuts| - 1] == e;
      SameCuts(prices, priced, duration, cuts);
      WholeWindowsAreNotCheaper(priced, duration, start, end, cuts);
    }
  }

  /** The intervals alone decide whether a longer run can ever be cheaper: the
      cheapest window is the cheapest run at all prices exactly when every run
      that lasts the duration is made of whole windows. */
  lemma WholeWindowsDecide(prices: seq<TotalPrice>, duration: nat)
    requires duration > 0
    ensures (forall priced: seq<TotalPrice> :: SameIntervals(prices, priced) ==> FindsCheapestRun(priced, duration)) <==>
      forall s: nat, e: nat :: Lasts(prices, duration, s, e) ==> MadeOfWindows(prices, duration, s, e)
  {
    hide Average, Minutes, Weighted, GapFree;
    if forall s: nat, e: nat :: Lasts(prices, duration, s, e) ==> MadeOfWindows(prices, duration, s, e) {
      forall priced: seq<TotalPrice> | SameIntervals(prices, priced)
        ensures FindsCheapestRun(priced, duration)
      {
        forall start: nat, end: nat | IsCheapest(priced, duration, start, end)
          ensures NoRunBelow(priced, duration, Average(priced, start, end))
        {
          WholeRunsAreNotCheaper(prices, priced, duration, start, end);
        }
      }
    } else {
      var s: nat, e: nat :| Lasts(prices, duration, s, e) && !MadeOfWindows(prices, duration, s, e);
      var priced, start, end := CutRunCanBeCheaper(prices, duration, s, e);
      assert !FindsCheapestRun(priced, duration);
    }
  }

  /** One such input: of 1, 3 and 1 c/kWh, the three quarters together average
      less than both half hours. */
  lemma LongerRunCanBeCheaper()
    ensures var prices: seq<TotalPrice> :=
              [PriceEntry(0, 900_000, 1.0), PriceEntry(900_000, 1_800_000, 3.0), PriceEntry(1_800_000, 2_700_000, 1.0)];
      && IsCheapest(prices, 30, 0, 2) && Lasts(prices, 30, 0, 3)
      && 3.0 * Average(prices, 0, 3) == 5.0 && Average(prices, 0, 2) == 2.0
  {
    var a, b, c := PriceEntry(0, 900_000, 1.0), PriceEntry(900_000, 1_800_000, 3.0), PriceEntry(1_800_000, 2_700_000, 1.0);
    var prices: seq<TotalPrice> := [a, b, c];
    QuarterSums(prices, 0);
    QuarterSums(prices, 1);
    forall s: nat, e: nat | IsWindow(prices, 30, s, e)
      ensures Average(prices, 0, 2) <= Average(prices, s, e)
    {
      QuarterSums(prices, s);
    }
    assert Minutes(prices, 0, 3) == Minutes(prices, 0, 2) + 15.0;
    assert Weighted(prices, 0, 3) == Weighted(prices, 0, 2) + 15.0;
    assert IsCheapest(prices, 30, 0, 2);
    assert Lasts(prices, 30, 0, 3);
  }

  lemma QuarterSums(prices: seq<TotalPrice>, start: nat)
    requires forall i :: 0 <= i < |prices| ==> prices[i].end == prices[i].start + 900_000
    requires start < |prices|
    ensures Minutes(prices, start, start + 1) == 15.0 && Weighted(prices, start, start + 1) == 15.0 * prices[start].total
    ensures start + 1 < |prices| ==>
      (Minutes(prices, start, start + 2) == 30.0
       && Weighted(prices, start, start + 2) == 15.0 * prices[start].total + 15.0 * prices[start + 1].total)
  {
    MinutesEmpty(prices, start);
    assert prices[start].Minutes() == 15.0;
    MinutesStep(prices, start, start);
    if start + 1 < |prices| {
      assert prices[start + 1].Minutes() == 15.0;
      MinutesStep(prices, start, start + 1);
    }
  }
}

/** The quarter correction that is added after the within-day shape. */
module Correction {
  import opened Quarters
  import opened Ordered
  import opened DaySums
  import Shape
  import LinearAlgebra

  datatype Decomposition = Joint | DayDeviation

  /** The profile price of a quarter and the output of the fit. */
  datatype Term = Term(baseline: real, delta: real)

  datatype Diagnostics = Diagnostics(usedDefault: bool, corrected: nat, uncorrected: nat)

  // --- The terms of a run ---------------------------------------------------------------------

  /** A correction term for every served quarter that has a profile price and a
      prediction. */
  ghost function Terms(served: seq<int>, profile: QuarterMap, predicted: QuarterMap, fit: (int, real) -> real): (r: map<int, Term>)
  {
    map q | q in served && q in profile && q in predicted :: Term(profile[q], fit(q, profile[q]))
  }

  ghost function Deltas(terms: map<int, Term>): (r: QuarterMap)
    ensures r.Keys == terms.Keys
  {
    map q | q in terms :: terms[q].delta
  }

  ghost function DayMean(terms: map<int, Term>, day: int): real {
    var count := DayCount(Deltas(terms), day);
    if count == 0 then 0.0 else DaySum(Deltas(terms), day) / count as real
  }

  /** The corrected prediction of one quarter. */
  ghost function CorrectedValue(d: Decomposition, terms: map<int, Term>, predicted: QuarterMap, q: int): real
    requires q in predicted
  {
    if q !in terms then predicted[q]
    else if d.Joint? then terms[q].baseline + terms[q].delta
    else predicted[q] + (terms[q].delta - DayMean(terms, UtcDayStart(q)))
  }

  ghost function Corrected(d: Decomposition, terms: map<int, Term>, predicted: QuarterMap): (r: QuarterMap)
    ensures r.Keys == predicted.Keys
  {
    map q | q in predicted :: CorrectedValue(d, terms, predicted, q)
  }

  // --- The loops of the correction -----------------------------------------------------------------

  datatype DayTotal = DayTotal(sum: real, count: nat)

  function TotalOn(days: map<int, DayTotal>, day: int): DayTotal {
    if day in days then days[day] else DayTotal(0.0, 0)
  }

  method DayTotals(terms: map<int, Term>) returns (days: map<int, DayTotal>)
    ensures forall day :: TotalOn(days, day) == DayTotal(DaySum(Deltas(terms), day), DayCount(Deltas(terms), day))
  {
    hide UtcDayStart, SumOn, CountOn, Ascending;
    var keys := Ascending(terms.Keys);
    ghost var deltas := Deltas(terms);
    assert forall i :: 0 <= i < |keys| ==> keys[i] in keys;
    days := map[];
    forall day
      ensures SumOn(deltas, keys, 0, day) == 0.0 && CountOn(deltas, keys, 0, day) == 0
    {
      SumNone(deltas, keys, day);
    }
    for n := 0 to |keys|
      invariant forall day :: TotalOn(days, day) == DayTotal(SumOn(deltas, keys, n, day), CountOn(deltas, keys, n, day))
    {
      var q := keys[n];
      var today := UtcDayStart(q);
      ghost var before := days;
      var total := TotalOn(days, today);
      days := days[today := DayTotal(total.sum + terms[q].delta, total.count + 1)];
      forall day
        ensures TotalOn(days, day) == DayTotal(SumOn(deltas, keys, n + 1, day), CountOn(deltas, keys, n + 1, day))
      {
        SumStep(deltas, keys, n, day);
        assert TotalOn(before, day) == DayTotal(SumOn(deltas, keys, n, day), CountOn(deltas, keys, n, day));
      }
    }
  }

  method CollectTerms(served: seq<int>, profile: QuarterMap, predicted: QuarterMap, fit: (int, real) -> real)
    returns (terms: map<int, Term>)
    ensures terms == Terms(served, profile, predicted, fit)
    ensures forall q: int :: q in terms ==> q in predicted
  {
    terms := map[];
    ghost var all := Terms(served, profile, predicted, fit);
    for i := 0 to |served|
      invariant forall q :: q in terms ==> q in all && terms[q] == all[q]
      invariant forall k :: 0 <= k < i && served[k] in all ==> served[k] in terms
    {
      var q := served[i];
      if q in profile && q in predicted {
        terms := terms[q := Term(profile[q], fit(q, profile[q]))];
      }
    }
    forall q: int | q in terms
      ensures q in all && terms[q] == all[q]
    {
    }
    SameMap(terms, all, served);
  }

  method ApplyTerms(d: Decomposition, terms: map<int, Term>, predicted: QuarterMap) returns (quarters: QuarterMap)
    requires forall q :: q in terms ==> q in predicted
    ensures quarters == Corrected(d, terms, predicted)
  {
    hide Corrected, CorrectedValue, DaySum, DayCount, Ascending, UtcDayStart, Deltas;
    quarters := predicted;
    var keys := Ascending(terms.Keys);
    assert forall i :: 0 <= i < |keys| ==> keys[i] in keys;
    var days: map<int, DayTotal> := map[];
    if d.DayDeviation? {
      days := DayTotals(terms);
    }
    for n := 0 to |keys|
      invariant forall q :: q in quarters <==> q in predicted
      invariant forall i :: 0 <= i < n ==> quarters[keys[i]] == CorrectedValue(d, terms, predicted, keys[i])
      invariant forall i :: n <= i < |keys| ==> quarters[keys[i]] == predicted[keys[i]]
      invariant forall q :: q in predicted && q !in terms ==> quarters[q] == predicted[q]
    {
      var q := keys[n];
      ValueOf(d, terms, predicted, q);
      if d.Joint? {
        quarters := quarters[q := terms[q].baseline + terms[q].delta];
      } else {
        var total := TotalOn(days, UtcDayStart(q));
        quarters := quarters[q := quarters[q] + (terms[q].delta - total.sum / total.count as real)];
      }
    }
    CorrectedWhole(d, terms, predicted, quarters, keys);
  }

  /** The served predictions, changed in place. */
  class Prediction {
    var quarters: QuarterMap

    constructor (predicted: QuarterMap)
      ensures quarters == predicted
    {
      quarters := predicted;
    }

    /** Adds the correction of a run; a fit that fell back changes nothing. */
    method Correct(d: Decomposition, usedFallback: bool, served: seq<int>, profile: QuarterMap, fit: (int, real) -> real)
      returns (diagnostics: Diagnostics)
      modifies this`quarters
      ensures quarters ==
        if usedFallback then old(quarters)
        else Corrected(d, Terms(served, profile, old(quarters), fit), old(quarters))
      ensures diagnostics.usedDefault == usedFallback
      ensures diagnostics.corrected + diagnostics.uncorrected == |old(quarters)|
      ensures usedFallback ==> diagnostics.corrected == 0
      ensures !usedFallback ==> diagnostics.corrected == |Terms(served, profile, old(quarters), fit)|
    {
      hide Corrected, Terms;
      var predicted := quarters;
      if usedFallback {
        return Diagnostics(true, 0, |predicted|);
      }
      var terms := CollectTerms(served, profile, predicted, fit);
      quarters := ApplyTerms(d, terms, predicted);
      FewerKeys(terms, predicted);
      diagnostics := Diagnostics(false, |terms|, |predicted| - |terms|);
    }
  }

  lemma ValueOf(d: Decomposition, terms: map<int, Term>, predicted: QuarterMap, q: int)
    requires q in terms && q in predicted
    ensures d.Joint? ==> CorrectedValue(d, terms, predicted, q) == terms[q].baseline + terms[q].delta
    ensures d.DayDeviation? ==>
      var day := UtcDayStart(q); var count := DayCount(Deltas(terms), day);
      count > 0 && CorrectedValue(d, terms, predicted, q)
        == predicted[q] + (terms[q].delta - DaySum(Deltas(terms), day) / count as real)
  {
    hide UtcDayStart, Ascending, CountOn;
    var deltas, keys, day := Deltas(terms), Ascending(terms.Keys), UtcDayStart(q);
    assert q in keys;
    var i :| 0 <= i < |keys| && keys[i] == q;
    CountPositive(deltas, keys, |keys|, i, day);
  }

  lemma CorrectedWhole(d: Decomposition, terms: map<int, Term>, predicted: QuarterMap, quarters: QuarterMap, keys: seq<int>)
    requires forall q :: q in terms ==> q in keys
    requires forall q :: q in quarters <==> q in predicted
    requires forall i :: 0 <= i < |keys| ==> keys[i] in predicted && keys[i] in quarters
    requires forall i :: 0 <= i < |keys| ==> quarters[keys[i]] == CorrectedValue(d, terms, predicted, keys[i])
    requires forall q :: q in predicted && q !in terms ==> quarters[q] == predicted[q]
    ensures quarters == Corrected(d, terms, predicted)
  {
    hide DayMean;
    var all := Ascending(predicted.Keys);
    var corrected := Corrected(d, terms, predicted);
    forall i | 0 <= i < |all|
      ensures all[i] in quarters
    {
      assert all[i] in all;
    }
    forall q: int | q in quarters
      ensures q in corrected && quarters[q] == corrected[q]
    {
      assert q in predicted.Keys;
    }
    forall q: int | q in corrected
      ensures q in all
    {
      assert q in predicted.Keys;
    }
    SameMap(quarters, corrected, all);
  }

  // --- What the correction keeps ----------------------------------------------------------------------

  /** The deltas less a constant add up on top of the prediction. */
  lemma {:induction false} SumOfCorrection(before: QuarterMap, after: QuarterMap, deltas: QuarterMap, keys: seq<int>, n: nat, day: int, mean: real)
    requires n <= |keys| && before.Keys == after.Keys
    requires forall i :: 0 <= i < |keys| ==> keys[i] in before && keys[i] in after
    requires forall q :: On(before, day, q) ==> q in after && after[q] == before[q] + if q in deltas then deltas[q] - mean else 0.0
    ensures SumOn(after, keys, n, day) == SumOn(before, keys, n, day) + SumOn(deltas, keys, n, day)
      - LinearAlgebra.Times(CountOn(deltas, keys, n, day) as real, mean)
  {
    hide SumOn, CountOn, UtcDayStart;
    if n == 0 {
      SumNone(before, keys, day);
      SumNone(after, keys, day);
      SumNone(deltas, keys, day);
      assert LinearAlgebra.Times(0.0, mean) == 0.0;
    } else {
      SumOfCorrection(before, after, deltas, keys, n - 1, day, mean);
      SumStep(before, keys, n - 1, day);
      SumStep(after, keys, n - 1, day);
      SumStep(deltas, keys, n - 1, day);
      Shape.OneMore(CountOn(deltas, keys, n - 1, day), mean);
    }
  }

  /** The day-deviation correction keeps the sum of every UTC day. */
  lemma DeviationKeepsDaySums(terms: map<int, Term>, predicted: QuarterMap, day: int)
    requires terms.Keys <= predicted.Keys
    ensures DaySum(Corrected(DayDeviation, terms, predicted), day) == DaySum(predicted, day)
  {
    hide SumOn, CountOn, UtcDayStart, Ascending, LinearAlgebra.Times;
    var corrected, deltas := Corrected(DayDeviation, terms, predicted), Deltas(terms);
    var keys, mean := Ascending(predicted.Keys), DayMean(terms, day);
    assert forall i :: 0 <= i < |keys| ==> keys[i] in keys;
    SumOfCorrection(predicted, corrected, deltas, keys, |keys|, day, mean);
    DaySumOverMore(deltas, predicted.Keys, day);
    if DayCount(deltas, day) == 0 {
      SumOfEmptyDay(deltas, keys, |keys|, day);
      Shape.NoTimes();
    } else {
      Shape.TimesMean(DaySum(deltas, day), DayCount(deltas, day));
    }
  }

  /** The daily level of the model survives the shape step and the day-deviation
      correction after it. */
  lemma LevelSurvives(predicted: QuarterMap, profile: QuarterMap, terms: map<int, Term>, day: int)
    requires terms.Keys <= predicted.Keys
    ensures DaySum(Corrected(DayDeviation, terms, Shape.Shaped(predicted, profile)), day) == DaySum(predicted, day)
  {
    Shape.ShapeKeepsDaySums(predicted, profile, day);
    DeviationKeepsDaySums(terms, Shape.Shaped(predicted, profile), day);
  }

  /** The corrections of two quarters of a day differ like the output of the fit. */
  lemma DeviationFollowsFit(served: seq<int>, profile: QuarterMap, predicted: QuarterMap, fit: (int, real) -> real, p: int, q: int)
    requires p in served && q in served && p in profile && q in profile && p in predicted && q in predicted
    requires UtcDayStart(p) == UtcDayStart(q)
    ensures var corrected := Corrected(DayDeviation, Terms(served, profile, predicted, fit), predicted);
      (corrected[p] - predicted[p]) - (corrected[q] - predicted[q]) == fit(p, profile[p]) - fit(q, profile[q])
  {
    hide UtcDayStart, DayMean;
  }

  /** The joint correction replaces a prediction by the profile price plus the
      output of the fit, and keeps a quarter without either. */
  lemma JointReplaces(served: seq<int>, profile: QuarterMap, predicted: QuarterMap, fit: (int, real) -> real, q: int)
    requires q in predicted
    ensures Corrected(Joint, Terms(served, profile, predicted, fit), predicted)[q] ==
      if q in served && q in profile then profile[q] + fit(q, profile[q]) else predicted[q]
  {
    hide DayMean;
  }

  /** The new values of the joint correction. */
  ghost function Levels(terms: map<int, Term>): (r: QuarterMap)
    ensures r.Keys == terms.Keys
  {
    map q | q in terms :: terms[q].baseline + terms[q].delta
  }

  /** The predictions that it replaces. */
  ghost function Replaced(terms: map<int, Term>, predicted: QuarterMap): (r: QuarterMap)
    requires terms.Keys <= predicted.Keys
    ensures r.Keys == terms.Keys
  {
    map q | q in terms :: predicted[q]
  }

  lemma {:induction false} SumOfReplacement(before: QuarterMap, after: QuarterMap, terms: map<int, Term>, keys: seq<int>, n: nat, day: int)
    requires n <= |keys| && before.Keys == after.Keys && terms.Keys <= before.Keys
    requires forall i :: 0 <= i < |keys| ==> keys[i] in before
    requires forall q :: q in before ==> after[q] == if q in terms then Levels(terms)[q] else before[q]
    ensures SumOn(after, keys, n, day) ==
      SumOn(before, keys, n, day) + SumOn(Levels(terms), keys, n, day) - SumOn(Replaced(terms, before), keys, n, day)
  {
    hide SumOn, CountOn, UtcDayStart;
    if n == 0 {
      SumNone(before, keys, day);
      SumNone(after, keys, day);
      SumNone(Levels(terms), keys, day);
      SumNone(Replaced(terms, before), keys, day);
    } else {
      SumOfReplacement(before, after, terms, keys, n - 1, day);
      SumStep(before, keys, n - 1, day);
      SumStep(after, keys, n - 1, day);
      SumStep(Levels(terms), keys, n - 1, day);
      SumStep(Replaced(terms, before), keys, n - 1, day);
      assert keys[n - 1] in before;
    }
  }

  /** The joint correction moves the sum of a UTC day by the difference between the
      new values and the predictions that they replace; so it keeps the sum exactly
      when the two agree. */
  lemma JointMovesDaySums(terms: map<int, Term>, predicted: QuarterMap, day: int)
    requires terms.Keys <= predicted.Keys
    ensures var corrected := Corrected(Joint, terms, predicted);
      && DaySum(corrected, day) == DaySum(predicted, day) + DaySum(Levels(terms), day) - DaySum(Replaced(terms, predicted), day)
      && (DaySum(corrected, day) == DaySum(predicted, day) <==> DaySum(Levels(terms), day) == DaySum(Replaced(terms, predicted), day))
  {
    hide SumOn, CountOn, UtcDayStart, Ascending, DayMean;
    var corrected, keys := Corrected(Joint, terms, predicted), Ascending(predicted.Keys);
    assert forall i :: 0 <= i < |keys| ==> keys[i] in keys;
    SumOfReplacement(predicted, corrected, terms, keys, |keys|, day);
    DaySumOverMore(Levels(terms), predicted.Keys, day);
    DaySumOverMore(Replaced(terms, predicted), predicted.Keys, day);
  }

  lemma {:induction false} SumOfSame(a: QuarterMap, b: QuarterMap, keys: seq<int>, n: nat, day: int)
    requires n <= |keys|
    requires forall q :: On(a, day, q) <==> On(b, day, q)
    requires forall q :: On(a, day, q) ==> q in b && a[q] == b[q]
    ensures SumOn(a, keys, n, day) == SumOn(b, keys, n, day)
  {
    if n > 0 {
      hide UtcDayStart;
      SumOfSame(a, b, keys, n - 1, day);
      assert On(a, day, keys[n - 1]) <==> On(b, day, keys[n - 1]);
    }
  }

  /** On a day whose quarters all have a term, nothing of the predicted level is
      left: the day sum is that of the profile and the fit, for any predictions. */
  lemma JointSetsTheLevel(terms: map<int, Term>, predicted: QuarterMap, day: int)
    requires terms.Keys <= predicted.Keys
    requires forall q :: On(predicted, day, q) ==> q in terms
    ensures DaySum(Corrected(Joint, terms, predicted), day) == DaySum(Levels(terms), day)
  {
    hide SumOn, CountOn, UtcDayStart, Ascending, DayMean;
    JointMovesDaySums(terms, predicted, day);
    var keys := Ascending(predicted.Keys);
    DaySumOverMore(Replaced(terms, predicted), predicted.Keys, day);
    forall q: int
      ensures On(predicted, day, q) <==> On(Replaced(terms, predicted), day, q)
    {
    }
    SumOfSame(predicted, Replaced(terms, predicted), keys, |keys|, day);
  }
}

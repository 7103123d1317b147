/** The within-day shape step: every prediction becomes the mean of its UTC day
    plus the deviation of a price profile from its own mean of the day. */
module Shape {
  import opened Quarters
  import opened Ordered
  import opened DaySums
  import LinearAlgebra

  datatype DayAggregate = DayAggregate(ridgeSum: real, ridgeCount: nat, profileSum: real, profileCount: nat)

  datatype ShapedPrediction = ShapedPrediction(result: QuarterMap, fallbackQuarters: nat)

  const EMPTY_DAY := DayAggregate(0.0, 0, 0.0, 0)

  ghost function Aggregate(predicted: QuarterMap, profile: QuarterMap, keys: seq<int>, n: nat, day: int): DayAggregate
    requires n <= |keys|
  {
    DayAggregate(SumOn(predicted, keys, n, day), CountOn(predicted, keys, n, day),
                 SumOn(profile, keys, n, day), CountOn(profile, keys, n, day))
  }

  /** The aggregates of a day over all predicted quarters. */
  ghost function DayOf(predicted: QuarterMap, profile: QuarterMap, day: int): DayAggregate {
    Aggregate(predicted, profile, Ascending(predicted.Keys), |Ascending(predicted.Keys)|, day)
  }

  function ShapedValue(day: DayAggregate, profile: QuarterMap, q: int): real
    requires day.ridgeCount > 0
  {
    var mean := day.ridgeSum / day.ridgeCount as real;
    if q in profile && day.profileCount > 0 then mean + (profile[q] - day.profileSum / day.profileCount as real)
    else mean
  }

  lemma DayIsNotEmpty(predicted: QuarterMap, profile: QuarterMap, q: int)
    requires q in predicted
    ensures DayOf(predicted, profile, UtcDayStart(q)).ridgeCount > 0
    ensures q in profile ==> DayOf(predicted, profile, UtcDayStart(q)).profileCount > 0
  {
    hide CountOn, UtcDayStart;
    var keys, day := Ascending(predicted.Keys), UtcDayStart(q);
    assert q in keys;
    var i :| 0 <= i < |keys| && keys[i] == q;
    CountPositive(predicted, keys, |keys|, i, day);
    if q in profile {
      CountPositive(profile, keys, |keys|, i, day);
    }
  }

  /** The shaped predictions. */
  ghost function Shaped(predicted: QuarterMap, profile: QuarterMap): (r: QuarterMap)
    ensures r.Keys == predicted.Keys
  {
    map q | q in predicted ::
      DayIsNotEmpty(predicted, profile, q);
      ShapedValue(DayOf(predicted, profile, UtcDayStart(q)), profile, q)
  }

  function AggregateOn(byDay: map<int, DayAggregate>, day: int): DayAggregate {
    if day in byDay then byDay[day] else EMPTY_DAY
  }

  function Added(day: DayAggregate, value: real, profile: QuarterMap, q: int): DayAggregate {
    DayAggregate(day.ridgeSum + value, day.ridgeCount + 1,
                 day.profileSum + (if q in profile then profile[q] else 0.0),
                 day.profileCount + (if q in profile then 1 else 0))
  }

  lemma AggregateStep(predicted: QuarterMap, profile: QuarterMap, keys: seq<int>, n: nat, day: int)
    requires n < |keys| && keys[n] in predicted
    ensures Aggregate(predicted, profile, keys, n + 1, day) ==
      if UtcDayStart(keys[n]) == day then Added(Aggregate(predicted, profile, keys, n, day), predicted[keys[n]], profile, keys[n])
      else Aggregate(predicted, profile, keys, n, day)
  {
    hide UtcDayStart;
  }

  lemma AggregateNone(predicted: QuarterMap, profile: QuarterMap, keys: seq<int>, day: int)
    ensures Aggregate(predicted, profile, keys, 0, day) == EMPTY_DAY
  {
  }

  /** How many of the keys have no profile price. */
  function Unprofiled(profile: QuarterMap, keys: seq<int>): nat {
    if keys == [] then 0
    else Unprofiled(profile, keys[..|keys| - 1]) + if keys[|keys| - 1] in profile then 0 else 1
  }

  /** The aggregates of every day with a prediction. */
  method AggregateDays(predicted: QuarterMap, profile: QuarterMap) returns (byDay: map<int, DayAggregate>)
    ensures forall day :: AggregateOn(byDay, day) == DayOf(predicted, profile, day)
  {
    hide Aggregate, UtcDayStart;
    var keys := Ascending(predicted.Keys);
    assert forall i :: 0 <= i < |keys| ==> keys[i] in keys;
    byDay := map[];
    forall day
      ensures Aggregate(predicted, profile, keys, 0, day) == EMPTY_DAY
    {
      AggregateNone(predicted, profile, keys, day);
    }
    for n := 0 to |keys|
      invariant forall day :: AggregateOn(byDay, day) == Aggregate(predicted, profile, keys, n, day)
    {
      var q := keys[n];
      var today := UtcDayStart(q);
      ghost var before := byDay;
      byDay := byDay[today := Added(AggregateOn(byDay, today), predicted[q], profile, q)];
      forall day
        ensures AggregateOn(byDay, day) == Aggregate(predicted, profile, keys, n + 1, day)
      {
        AggregateStep(predicted, profile, keys, n, day);
        assert AggregateOn(before, day) == Aggregate(predicted, profile, keys, n, day);
      }
    }
  }

  method ApplyWithinDayShape(predicted: QuarterMap, profile: QuarterMap) returns (s: ShapedPrediction)
    ensures s.result == Shaped(predicted, profile)
    ensures s.fallbackQuarters == Unprofiled(profile, Ascending(predicted.Keys))
  {
    hide UtcDayStart, Shaped, DayOf, Ascending, Unprofiled, AggregateOn;
    var byDay := AggregateDays(predicted, profile);
    var keys := Ascending(predicted.Keys);
    assert forall i :: 0 <= i < |keys| ==> keys[i] in keys;
    var result: QuarterMap := map[];
    var fallback := 0;
    for n := 0 to |keys|
      invariant forall i :: 0 <= i < n ==> keys[i] in result
      invariant forall q :: q in result ==> q in Shaped(predicted, profile) && result[q] == Shaped(predicted, profile)[q]
      invariant n > 0 ==> fallback == Unprofiled(profile, keys[..n])
      invariant n == 0 ==> fallback == 0
    {
      var q := keys[n];
      UnprofiledStep(profile, keys, n);
      ShapedAt(predicted, profile, q);
      var day := AggregateOn(byDay, UtcDayStart(q));
      var mean := day.ridgeSum / day.ridgeCount as real;
      if q in profile && day.profileCount > 0 {
        var profileMean := day.profileSum / day.profileCount as real;
        result := result[q := mean + (profile[q] - profileMean)];
      } else {
        result := result[q := mean];
        fallback := fallback + 1;
      }
    }
    assert keys[..|keys|] == keys;
    NothingUnprofiled(profile);
    forall q | q in Shaped(predicted, profile)
      ensures q in keys
    {
      assert q in predicted.Keys;
    }
    forall q: int | q in result
      ensures q in Shaped(predicted, profile) && result[q] == Shaped(predicted, profile)[q]
    {
    }
    SameMap(result, Shaped(predicted, profile), keys);
    s := ShapedPrediction(result, fallback);
  }

  lemma NothingUnprofiled(profile: QuarterMap)
    ensures Unprofiled(profile, []) == 0
  {
  }

  lemma UnprofiledStep(profile: QuarterMap, keys: seq<int>, n: nat)
    requires n < |keys|
    ensures Unprofiled(profile, keys[..n + 1]) == Unprofiled(profile, keys[..n]) + if keys[n] in profile then 0 else 1
    ensures Unprofiled(profile, keys[..0]) == 0
  {
    assert keys[..n + 1][..n] == keys[..n];
  }

  lemma ShapedAt(predicted: QuarterMap, profile: QuarterMap, q: int)
    requires q in predicted
    ensures var day := DayOf(predicted, profile, UtcDayStart(q));
      && q in Shaped(predicted, profile)
      && day.ridgeCount > 0 && (q in profile ==> day.profileCount > 0)
      && Shaped(predicted, profile)[q] ==
           day.ridgeSum / day.ridgeCount as real
           + if q in profile then profile[q] - day.profileSum / day.profileCount as real else 0.0
  {
    hide DayOf, UtcDayStart;
    DayIsNotEmpty(predicted, profile, q);
  }

  lemma ShapedWithProfile(day: DayAggregate, profile: QuarterMap, q: int)
    requires day.ridgeCount > 0 && q in profile && day.profileCount > 0
    ensures ShapedValue(day, profile, q) ==
      day.ridgeSum / day.ridgeCount as real + (profile[q] - day.profileSum / day.profileCount as real)
  {
  }

  lemma ShapedWithoutProfile(day: DayAggregate, profile: QuarterMap, q: int)
    requires day.ridgeCount > 0 && q !in profile
    ensures ShapedValue(day, profile, q) == day.ridgeSum / day.ridgeCount as real
  {
  }

  // --- What the shape step keeps ------------------------------------------------------------------

  /** A map that is a constant plus the profile less a constant, wherever a
      profile price exists, sums like its parts. */
  lemma {:induction false} SumOfShape(m: QuarterMap, profile: QuarterMap, keys: seq<int>, n: nat, day: int, mean: real, profileMean: real)
    requires n <= |keys|
    requires forall i :: 0 <= i < |keys| ==> keys[i] in m
    requires forall q :: On(m, day, q) ==> m[q] == mean + if q in profile then profile[q] - profileMean else 0.0
    ensures SumOn(m, keys, n, day) == LinearAlgebra.Times(CountOn(m, keys, n, day) as real, mean)
      + SumOn(profile, keys, n, day) - LinearAlgebra.Times(CountOn(profile, keys, n, day) as real, profileMean)
  {
    hide SumOn, CountOn, UtcDayStart;
    if n == 0 {
      SumNone(m, keys, day);
      SumNone(profile, keys, day);
    } else {
      SumOfShape(m, profile, keys, n - 1, day, mean, profileMean);
      SumStep(m, keys, n - 1, day);
      SumStep(profile, keys, n - 1, day);
      OneMore(CountOn(m, keys, n - 1, day), mean);
      OneMore(CountOn(profile, keys, n - 1, day), profileMean);
    }
  }

  lemma OneMore(n: nat, x: real)
    ensures LinearAlgebra.Times((n + 1) as real, x) == LinearAlgebra.Times(n as real, x) + x
  {
  }

  lemma TimesMean(sum: real, n: nat)
    requires n > 0
    ensures LinearAlgebra.Times(n as real, sum / n as real) == sum
  {
  }

  /** The shape step keeps the sum of every UTC day, for any profile. */
  lemma ShapeKeepsDaySums(predicted: QuarterMap, profile: QuarterMap, day: int)
    ensures DaySum(Shaped(predicted, profile), day) == DaySum(predicted, day)
  {
    hide SumOn, CountOn, UtcDayStart, LinearAlgebra.Times, ShapedValue;
    var shaped := Shaped(predicted, profile);
    var keys := Ascending(predicted.Keys);
    var n, a := |keys|, DayOf(predicted, profile, day);
    assert forall i :: 0 <= i < |keys| ==> keys[i] in keys;
    SameKeysSameCount(predicted, shaped, keys, n, day);
    if a.ridgeCount == 0 {
      SumOfEmptyDay(predicted, keys, n, day);
      SumOfEmptyDay(shaped, keys, n, day);
    } else {
      var mean := a.ridgeSum / a.ridgeCount as real;
      var profileMean := if a.profileCount > 0 then a.profileSum / a.profileCount as real else 0.0;
      forall q | On(shaped, day, q)
        ensures shaped[q] == mean + if q in profile then profile[q] - profileMean else 0.0
      {
        DayIsNotEmpty(predicted, profile, q);
        if q in profile {
          ShapedWithProfile(a, profile, q);
        } else {
          ShapedWithoutProfile(a, profile, q);
        }
      }
      SumOfShape(shaped, profile, keys, n, day, mean, profileMean);
      TimesMean(a.ridgeSum, a.ridgeCount);
      if a.profileCount > 0 {
        TimesMean(a.profileSum, a.profileCount);
      } else {
        SumOfEmptyDay(profile, keys, n, day);
        NoTimes();
      }
    }
  }

  lemma NoTimes()
    ensures LinearAlgebra.Times(0.0, 0.0) == 0.0
  {
  }

  lemma {:induction false} SameKeysSameCount(m: QuarterMap, m': QuarterMap, keys: seq<int>, n: nat, day: int)
    requires n <= |keys| && m.Keys == m'.Keys
    ensures CountOn(m, keys, n, day) == CountOn(m', keys, n, day)
  {
    if n > 0 {
      SameKeysSameCount(m, m', keys, n - 1, day);
      assert keys[n - 1] in m.Keys <==> keys[n - 1] in m'.Keys;
    }
  }

  /** Differences within a day are the differences of the profile. */
  lemma ShapeFollowsProfile(predicted: QuarterMap, profile: QuarterMap, q: int, p: int)
    requires q in predicted && p in predicted && UtcDayStart(q) == UtcDayStart(p)
    ensures q in profile && p in profile ==>
      Shaped(predicted, profile)[q] - Shaped(predicted, profile)[p] == profile[q] - profile[p]
    ensures q !in profile && p !in profile ==> Shaped(predicted, profile)[q] == Shaped(predicted, profile)[p]
  {
    hide UtcDayStart, DayOf;
    DayIsNotEmpty(predicted, profile, q);
    DayIsNotEmpty(predicted, profile, p);
  }

  /** The shape step reads only the keys and the day sums of the prediction. */
  lemma ShapeReadsDaySums(predicted: QuarterMap, other: QuarterMap, profile: QuarterMap)
    requires predicted.Keys == other.Keys
    requires forall day :: DaySum(predicted, day) == DaySum(other, day)
    ensures Shaped(predicted, profile) == Shaped(other, profile)
  {
    hide UtcDayStart, ShapedValue, SumOn, CountOn;
    forall q | q in predicted
      ensures Shaped(predicted, profile)[q] == Shaped(other, profile)[q]
    {
      var day := UtcDayStart(q);
      SameKeysSameCount(predicted, other, Ascending(predicted.Keys), |Ascending(predicted.Keys)|, day);
      assert DaySum(predicted, day) == DaySum(other, day);
      assert DayOf(predicted, profile, day) == DayOf(other, profile, day);
      DayIsNotEmpty(predicted, profile, q);
    }
  }

  /** Shaping twice is shaping once. */
  lemma ShapeIsIdempotent(predicted: QuarterMap, profile: QuarterMap)
    ensures Shaped(Shaped(predicted, profile), profile) == Shaped(predicted, profile)
  {
    hide Shaped, DaySum;
    forall day
      ensures DaySum(Shaped(predicted, profile), day) == DaySum(predicted, day)
    {
      ShapeKeepsDaySums(predicted, profile, day);
    }
    ShapeReadsDaySums(Shaped(predicted, profile), predicted, profile);
  }

  /** A map that differs from m by a constant on the day. */
  lemma {:induction false} SumOfMoved(m: QuarterMap, m': QuarterMap, keys: seq<int>, n: nat, day: int, c: real)
    requires n <= |keys| && m.Keys == m'.Keys
    requires forall q :: On(m, day, q) ==> q in m' && m'[q] == m[q] + c
    ensures SumOn(m', keys, n, day) == SumOn(m, keys, n, day) + LinearAlgebra.Times(CountOn(m, keys, n, day) as real, c)
  {
    hide SumOn, CountOn, UtcDayStart;
    if n == 0 {
      SumNone(m, keys, day);
      SumNone(m', keys, day);
      assert LinearAlgebra.Times(0.0, c) == 0.0;
    } else {
      SumOfMoved(m, m', keys, n - 1, day, c);
      SumStep(m, keys, n - 1, day);
      SumStep(m', keys, n - 1, day);
      OneMore(CountOn(m, keys, n - 1, day), c);
      assert keys[n - 1] in m.Keys <==> keys[n - 1] in m'.Keys;
    }
  }

  /** On a day with a full profile, the shaped prediction is the only one with the
      sum of the prediction and the differences of the profile. */
  lemma ShapeIsUnique(predicted: QuarterMap, profile: QuarterMap, other: QuarterMap, day: int, q: int)
    requires other.Keys == predicted.Keys && On(predicted, day, q)
    requires DaySum(other, day) == DaySum(predicted, day)
    requires forall p :: On(predicted, day, p) ==> p in profile
    requires forall p, r :: On(predicted, day, p) && On(predicted, day, r) ==> other[p] - other[r] == profile[p] - profile[r]
    ensures other[q] == Shaped(predicted, profile)[q]
  {
    hide UtcDayStart, ShapedValue, SumOn, CountOn, LinearAlgebra.Times;
    var shaped := Shaped(predicted, profile);
    var keys, c := Ascending(predicted.Keys), other[q] - shaped[q];
    forall p | On(shaped, day, p)
      ensures other[p] == shaped[p] + c
    {
      assert On(predicted, day, p);
      ShapeFollowsProfile(predicted, profile, p, q);
    }
    SumOfMoved(shaped, other, keys, |keys|, day, c);
    ShapeKeepsDaySums(predicted, profile, day);
    DayIsNotEmpty(predicted, profile, q);
    SameKeysSameCount(predicted, shaped, keys, |keys|, day);
    NoProduct(CountOn(shaped, keys, |keys|, day), c);
  }

  lemma NoProduct(n: nat, x: real)
    requires n > 0 && LinearAlgebra.Times(n as real, x) == 0.0
    ensures x == 0.0
  {
    var positive, negative := LinearAlgebra.Times(n as real, x), LinearAlgebra.Times(-(n as real), x);
    assert negative == -positive;
  }
}

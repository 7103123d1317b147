/** Empirical prediction bands from out-of-sample residuals. Finite numbers are
    exact reals; the infinities and NaN are modelled, because a residual with
    one of them is skipped when offsets are derived and scored when coverage is
    measured. */
module Conformal {
  import opened Common
  import opened Sorting
  import opened Rounding
  import LinearAlgebra

  datatype Double = Finite(value: real) | Infinite(negative: bool) | NaN

  /** The hyperbolic sine and its inverse. */
  datatype Maths = Maths(sinh: real -> real, asinh: real -> real)

  ghost predicate Inverses(m: Maths) {
    && (forall x :: m.sinh(m.asinh(x)) == x)
    && (forall x :: m.asinh(m.sinh(x)) == x)
    && (forall x, y :: x < y ==> m.sinh(x) < m.sinh(y))
  }

  type UtcHour = h: nat | h < 24

  datatype BandOffsets = BandOffsets(low: real, high: real)
  datatype HorizonResidual = HorizonResidual(utcHour: UtcHour, predicted: Double, actual: Double)
  type HourOffsets = s: seq<Option<BandOffsets>> | |s| == 24 witness seq(24, _ => None)
  datatype DerivedOffsets = DerivedOffsets(byHour: HourOffsets, pooled: Option<BandOffsets>)
  datatype SpotBand = SpotBand(low: real, high: real)

  const GATE: real := 0.7
  const NOMINAL: real := 0.8
  const MIN_HOUR_SAMPLES: nat := 14
  const MIN_TOTAL_SAMPLES: nat := 96

  // --- Arithmetic on doubles ---------------------------------------------------------------------

  function Asinh(m: Maths, x: Double): Double {
    if x.Finite? then Finite(m.asinh(x.value)) else x
  }

  function Sinh(m: Maths, x: Double): Double {
    if x.Finite? then Finite(m.sinh(x.value)) else x
  }

  function Shift(x: Double, offset: real): Double {
    if x.Finite? then Finite(x.value + offset) else x
  }

  function Subtract(x: Double, y: Double): Double {
    match (x, y)
    case (Finite(a), Finite(b)) => Finite(a - b)
    case (NaN, _) => NaN
    case (_, NaN) => NaN
    case (Infinite(a), Infinite(b)) => if a == b then NaN else x
    case (Infinite(_), Finite(_)) => x
    case (Finite(_), Infinite(b)) => Infinite(!b)
  }

  predicate AtMost(x: Double, y: Double) {
    match (x, y)
    case (Finite(a), Finite(b)) => a <= b
    case (NaN, _) => false
    case (_, NaN) => false
    case (Infinite(a), _) => a || y == Infinite(false)
    case (Finite(_), Infinite(b)) => !b
  }

  /** The order of the doubles: total without NaN, which compares with nothing, and
      between the two infinities. */
  lemma AtMostIsOrder(x: Double, y: Double, z: Double)
    ensures !x.NaN? && !y.NaN? ==> AtMost(x, y) || AtMost(y, x)
    ensures AtMost(x, y) && AtMost(y, x) ==> x == y
    ensures AtMost(x, y) && AtMost(y, z) ==> AtMost(x, z)
    ensures !x.NaN? ==> AtMost(Infinite(true), x) && AtMost(x, Infinite(false))
    ensures AtMost(x, y) ==> !x.NaN? && !y.NaN?
    ensures x.Finite? && y.Finite? ==> (AtMost(x, y) <==> x.value <= y.value)
  {
  }

  /** A difference is NaN exactly for NaN and for equal infinities, exact for finite
      numbers, and infinite otherwise; it is not negative exactly when it takes away no
      more than there is. */
  lemma DifferenceHasTheSign(x: Double, y: Double)
    ensures Subtract(x, y).NaN? <==> x.NaN? || y.NaN? || (x.Infinite? && x == y)
    ensures Subtract(x, y).Finite? <==> x.Finite? && y.Finite?
    ensures x.Finite? && y.Finite? ==> Subtract(x, y).value == x.value - y.value
    ensures !Subtract(x, y).NaN? ==> (AtMost(y, x) <==> AtMost(Finite(0.0), Subtract(x, y)))
  {
  }

  function Residual(m: Maths, r: HorizonResidual): Double {
    Subtract(Asinh(m, r.actual), Asinh(m, r.predicted))
  }

  // --- Offsets of one bucket -----------------------------------------------------------------------

  function Ceiling(x: real): int {
    -(-x).Floor
  }

  function Same(x: real): real {
    x
  }

  /** The 1-based nearest rank of the fraction p among n values. */
  function NearestRank(n: nat, p: real): (rank: nat)
    requires n > 0
    ensures 1 <= rank <= n
  {
    var rank := Ceiling(p * n as real);
    if rank < 1 then 1 else if rank > n then n else rank
  }

  function NearestRankPercentile(sorted: seq<real>, p: real): Option<real> {
    if |sorted| == 0 then None else Some(sorted[NearestRank(|sorted|, p) - 1])
  }

  function OffsetsFromResiduals(residuals: seq<real>, nominal: real): Option<BandOffsets> {
    if |residuals| == 0 then None
    else
      var sorted := Sort(Same, residuals);
      var low := NearestRankPercentile(sorted, (1.0 - nominal) / 2.0);
      var high := NearestRankPercentile(sorted, (1.0 + nominal) / 2.0);
      Some(BandOffsets(
        if low.None? || low.value > 0.0 then 0.0 else low.value,
        if high.None? || high.value < 0.0 then 0.0 else high.value))
  }

  predicate Within(offsets: BandOffsets, residual: real) {
    offsets.low <= residual <= offsets.high
  }

  function WithinThe(offsets: BandOffsets): real -> bool {
    residual => Within(offsets, residual)
  }

  /** The fraction x of n. */
  function Share(x: real, n: nat): real {
    x * n as real
  }

  /** The nearest ranks of the two fractions span at least their distance. */
  lemma RanksSpan(n: nat, nominal: real)
    requires n > 0 && 0.0 <= nominal <= 1.0
    ensures var lo := NearestRank(n, (1.0 - nominal) / 2.0);
      var hi := NearestRank(n, (1.0 + nominal) / 2.0);
      lo <= hi && (hi - lo + 1) as real >= Share(nominal, n)
  {
    var a, b := (1.0 - nominal) / 2.0 * n as real, (1.0 + nominal) / 2.0 * n as real;
    assert b - a == nominal * n as real;
    assert nominal * n as real >= 0.0;
    assert b <= n as real by {
      assert (1.0 + nominal) / 2.0 <= 1.0;
      assert ((1.0 - nominal) / 2.0) * n as real >= 0.0;
      assert a + b == n as real;
    }
    CeilingBounds(a, n);
    CeilingBounds(b, n);
  }

  lemma CeilingBounds(x: real, n: nat)
    ensures x <= Ceiling(x) as real < x + 1.0
    ensures x <= n as real ==> Ceiling(x) <= n
  {
  }

  /** The offsets of a bucket cover at least the nominal fraction of it, and
      they span 0. */
  lemma OffsetsCover(residuals: seq<real>, nominal: real)
    requires residuals != [] && 0.0 <= nominal <= 1.0
    ensures var o := OffsetsFromResiduals(residuals, nominal);
      && o.Some? && o.value.low <= 0.0 <= o.value.high
      && Count(WithinThe(o.value), residuals) as real >= Share(nominal, |residuals|)
  {
    hide Sort, NearestRank;
    SortMembers(Same, residuals);
    var sorted := Sort(Same, residuals);
    var n := |residuals|;
    var offsets := OffsetsFromResiduals(residuals, nominal).value;
    var lo, hi := NearestRank(n, (1.0 - nominal) / 2.0), NearestRank(n, (1.0 + nominal) / 2.0);
    RanksSpan(n, nominal);
    SortAscending(Same, residuals);
    forall i | lo - 1 <= i <= hi - 1
      ensures WithinThe(offsets)(sorted[i])
    {
      assert Same(sorted[lo - 1]) <= Same(sorted[i]) <= Same(sorted[hi - 1]);
    }
    CountBetween(sorted, lo - 1, hi - 1, WithinThe(offsets));
    SortKeepsCounts(WithinThe(offsets), Same, residuals);
  }

  /** The nearest rank is the least one that reaches the fraction. */
  lemma NearestRankIsLeast(n: nat, p: real)
    requires n > 0 && 0.0 <= p <= 1.0
    ensures NearestRank(n, p) as real >= Share(p, n)
    ensures NearestRank(n, p) > 1 ==> (NearestRank(n, p) - 1) as real < Share(p, n)
  {
    CeilingBounds(Share(p, n), n);
    assert (1.0 - p) * n as real == n as real - Share(p, n);
    var rest := LinearAlgebra.Times(1.0 - p, n as real);
  }

  predicate NotAbove(x: real, v: real) {
    x <= v
  }

  function NotAboveThe(v: real): real -> bool {
    x => NotAbove(x, v)
  }

  function BelowThe(v: real): real -> bool {
    x => x < v
  }

  /** v is a value that at least the fraction p of the values does not exceed, and
      less than it lies below. */
  ghost predicate IsPercentile(values: seq<real>, p: real, v: real) {
    && v in values
    && Count(NotAboveThe(v), values) as real >= Share(p, |values|)
    && (Count(BelowThe(v), values) == 0 || Count(BelowThe(v), values) as real < Share(p, |values|))
  }

  lemma {:induction false} BelowIsEarlier(s: seq<real>, k: nat, n: nat)
    requires k < n <= |s| && AscendingBy(Same, s)
    ensures Count(BelowThe(s[k]), s[..n]) <= k
  {
    assert s[..n][..n - 1] == s[..n - 1];
    assert Same(s[k]) <= Same(s[n - 1]);
    if n - 1 > k {
      BelowIsEarlier(s, k, n - 1);
    } else {
      CountAtMost(BelowThe(s[k]), s[..k]);
    }
  }

  lemma {:induction false} CountAtMost<T>(p: T -> bool, xs: seq<T>)
    ensures Count(p, xs) <= |xs|
  {
    if xs != [] {
      CountAtMost(p, xs[..|xs| - 1]);
    }
  }

  lemma PercentileOfSorted(values: seq<real>, p: real)
    requires values != [] && 0.0 <= p <= 1.0
    ensures var v := NearestRankPercentile(Sort(Same, values), p);
      v.Some? && IsPercentile(values, p, v.value)
  {
    SortMembers(Same, values);
    SortAscending(Same, values);
    hide Sort, NearestRank, Share;
    var s, n := Sort(Same, values), |values|;
    var k := NearestRank(n, p) - 1;
    var v := s[k];
    NearestRankIsLeast(n, p);
    forall i | 0 <= i <= k
      ensures NotAboveThe(v)(s[i])
    {
      assert Same(s[i]) <= Same(s[k]);
    }
    CountBetween(s, 0, k, NotAboveThe(v));
    BelowIsEarlier(s, k, n);
    assert s[..n] == s;
    SortKeepsCounts(NotAboveThe(v), Same, values);
    SortKeepsCounts(BelowThe(v), Same, values);
    assert v in s;
  }

  /** The offsets are the two percentiles that leave out the same fraction on each
      side, no further in than 0. */
  lemma OffsetsArePercentiles(residuals: seq<real>, nominal: real) returns (low: real, high: real)
    requires residuals != [] && 0.0 <= nominal <= 1.0
    ensures IsPercentile(residuals, (1.0 - nominal) / 2.0, low) && IsPercentile(residuals, (1.0 + nominal) / 2.0, high)
    ensures OffsetsFromResiduals(residuals, nominal)
         == Some(BandOffsets(if low > 0.0 then 0.0 else low, if high < 0.0 then 0.0 else high))
  {
    PercentileOfSorted(residuals, (1.0 - nominal) / 2.0);
    PercentileOfSorted(residuals, (1.0 + nominal) / 2.0);
    SortMembers(Same, residuals);
    hide Sort, NearestRankPercentile, IsPercentile;
    var sorted := Sort(Same, residuals);
    low := NearestRankPercentile(sorted, (1.0 - nominal) / 2.0).value;
    high := NearestRankPercentile(sorted, (1.0 + nominal) / 2.0).value;
  }

  // --- Offsets by hour ------------------------------------------------------------------------------

  /** The finite residuals that keep selects, in order. */
  function Bucket(m: Maths, residuals: seq<HorizonResidual>, keep: HorizonResidual -> bool): seq<real> {
    if residuals == [] then []
    else
      var n := |residuals| - 1;
      var rest := Bucket(m, residuals[..n], keep);
      var value := Residual(m, residuals[n]);
      if value.Finite? && keep(residuals[n]) then rest + [value.value] else rest
  }

  function InHour(h: nat): HorizonResidual -> bool {
    (r: HorizonResidual) => r.utcHour == h
  }

  function Any(r: HorizonResidual): bool {
    true
  }

  function HourOffset(m: Maths, residuals: seq<HorizonResidual>, nominal: real, minHour: nat, h: nat): Option<BandOffsets> {
    var bucket := Bucket(m, residuals, InHour(h));
    if |bucket| < minHour then None else OffsetsFromResiduals(bucket, nominal)
  }

  /** The offsets of every hour, and those of all finite residuals. */
  function DerivedOf(m: Maths, residuals: seq<HorizonResidual>, nominal: real, minHour: nat): DerivedOffsets {
    DerivedOffsets(seq(24, h requires 0 <= h < 24 => HourOffset(m, residuals, nominal, minHour, h)),
                   OffsetsFromResiduals(Bucket(m, residuals, Any), nominal))
  }

  lemma BucketStep(m: Maths, residuals: seq<HorizonResidual>, keep: HorizonResidual -> bool, n: nat)
    requires n < |residuals|
    ensures Bucket(m, residuals[..n + 1], keep) ==
      var value := Residual(m, residuals[n]);
      if value.Finite? && keep(residuals[n]) then Bucket(m, residuals[..n], keep) + [value.value]
      else Bucket(m, residuals[..n], keep)
  {
    assert residuals[..n + 1][..n] == residuals[..n];
  }

  /** Offsets by hour, and pooled over all hours. */
  method DeriveBandOffsets(m: Maths, residuals: seq<HorizonResidual>, nominal: real, minHour: nat)
    returns (d: DerivedOffsets)
    ensures d == DerivedOf(m, residuals, nominal, minHour)
  {
    hide Residual, OffsetsFromResiduals;
    var byHour := new seq<real>[24](_ => []);
    var all: seq<real> := [];
    for n := 0 to |residuals|
      invariant all == Bucket(m, residuals[..n], Any)
      invariant forall h: nat :: h < 24 ==> byHour[h] == Bucket(m, residuals[..n], InHour(h))
    {
      hide Bucket;
      var r := residuals[n];
      var residual := Residual(m, r);
      forall h: nat | h < 24
        ensures Bucket(m, residuals[..n + 1], InHour(h)) ==
          if residual.Finite? && r.utcHour == h then Bucket(m, residuals[..n], InHour(h)) + [residual.value]
          else Bucket(m, residuals[..n], InHour(h))
      {
        BucketStep(m, residuals, InHour(h), n);
      }
      BucketStep(m, residuals, Any, n);
      if residual.Finite? {
        byHour[r.utcHour] := byHour[r.utcHour] + [residual.value];
        all := all + [residual.value];
      }
    }
    assert residuals[..|residuals|] == residuals;
    var pooled := OffsetsFromResiduals(all, nominal);
    var offsets: seq<Option<BandOffsets>> := [];
    for h := 0 to 24
      invariant |offsets| == h
      invariant forall g: nat :: g < h ==> offsets[g] == HourOffset(m, residuals, nominal, minHour, g)
      invariant forall g: nat :: g < 24 ==> byHour[g] == Bucket(m, residuals, InHour(g))
    {
      var bucket := byHour[h];
      var own := if |bucket| == 0 || |bucket| < minHour then None else OffsetsFromResiduals(bucket, nominal);
      NoOffsetsOfNothing(nominal);
      offsets := offsets + [own];
    }
    d := DerivedOffsets(offsets, pooled);
    assert offsets == DerivedOf(m, residuals, nominal, minHour).byHour;
  }

  lemma NoOffsetsOfNothing(nominal: real)
    ensures OffsetsFromResiduals([], nominal).None?
  {
  }

  // --- Coverage --------------------------------------------------------------------------------------

  /** The offsets of an hour: its own, or the pooled ones. */
  function OffsetsForHour(h: UtcHour, d: DerivedOffsets): Option<BandOffsets>
  {
    if d.byHour[h].Some? then d.byHour[h] else d.pooled
  }

  predicate Scored(d: DerivedOffsets, r: HorizonResidual)
  {
    OffsetsForHour(r.utcHour, d).Some?
  }

  /** The actual price lies in the band of its hour. */
  predicate Covered(m: Maths, d: DerivedOffsets, r: HorizonResidual)
  {
    var offsets := OffsetsForHour(r.utcHour, d);
    && offsets.Some?
    && var point := Asinh(m, r.predicted);
       AtMost(Sinh(m, Shift(point, offsets.value.low)), r.actual)
         && AtMost(r.actual, Sinh(m, Shift(point, offsets.value.high)))
  }

  function ScoredBy(d: DerivedOffsets): HorizonResidual -> bool
  {
    (r: HorizonResidual) => Scored(d, r)
  }

  function CoveredBy(m: Maths, d: DerivedOffsets): HorizonResidual -> bool
  {
    (r: HorizonResidual) => Covered(m, d, r)
  }

  function Coverage(m: Maths, d: DerivedOffsets, residuals: seq<HorizonResidual>): real
  {
    var scored := Count(ScoredBy(d), residuals);
    if scored == 0 then 0.0 else Count(CoveredBy(m, d), residuals) as real / scored as real
  }

  method ObservedCoverageOf(m: Maths, residuals: seq<HorizonResidual>, d: DerivedOffsets) returns (coverage: real)
    ensures coverage == Coverage(m, d, residuals)
  {
    hide Covered, Scored;
    if |residuals| == 0 {
      return 0.0;
    }
    var covered, scored := 0, 0;
    for n := 0 to |residuals|
      invariant covered == Count(CoveredBy(m, d), residuals[..n])
      invariant scored == Count(ScoredBy(d), residuals[..n])
    {
      var r := residuals[n];
      assert residuals[..n + 1] == residuals[..n] + [r];
      CountPush(CoveredBy(m, d), residuals[..n], r);
      CountPush(ScoredBy(d), residuals[..n], r);
      CoveredIsScored(m, d, r);
      if Scored(d, r) {
        scored := scored + 1;
        if Covered(m, d, r) {
          covered := covered + 1;
        }
      }
    }
    assert residuals[..|residuals|] == residuals;
    coverage := if scored == 0 then 0.0 else covered as real / scored as real;
  }

  lemma CoveredIsScored(m: Maths, d: DerivedOffsets, r: HorizonResidual)
    ensures Covered(m, d, r) ==> Scored(d, r)
  {
  }

  /** For finite prices the band test is the test of the residual. */
  lemma CoveredByResidual(m: Maths, d: DerivedOffsets, r: HorizonResidual)
    requires Inverses(m)
    requires r.predicted.Finite? && r.actual.Finite?
    ensures Residual(m, r).Finite?
    ensures Covered(m, d, r) <==>
      Scored(d, r) && Within(OffsetsForHour(r.utcHour, d).value, Residual(m, r).value)
  {
    var offsets := OffsetsForHour(r.utcHour, d);
    var actual := m.asinh(r.actual.value);
    var point := m.asinh(r.predicted.value);
    assert m.sinh(actual) == r.actual.value;
    if offsets.Some? {
      SinhOrder(m, point + offsets.value.low, actual);
      SinhOrder(m, actual, point + offsets.value.high);
    }
  }

  /** A price that is not finite counts against the coverage of a finite point: its
      residual is in no bucket, and its hour is scored all the same. */
  lemma UnboundedPriceIsNotCovered(m: Maths, d: DerivedOffsets, r: HorizonResidual)
    requires r.predicted.Finite? && !r.actual.Finite?
    ensures !Covered(m, d, r) && !Residual(m, r).Finite?
    ensures Scored(d, r) <==> d.byHour[r.utcHour].Some? || d.pooled.Some?
  {
  }

  lemma SinhOrder(m: Maths, x: real, y: real)
    requires Inverses(m)
    ensures m.sinh(x) <= m.sinh(y) <==> x <= y
  {
  }

  // --- How much is covered ----------------------------------------------------------------------------

  function FiniteIn(m: Maths, keep: HorizonResidual -> bool): HorizonResidual -> bool {
    r => Residual(m, r).Finite? && keep(r)
  }

  function WithinIn(m: Maths, keep: HorizonResidual -> bool, offsets: BandOffsets): HorizonResidual -> bool {
    r => Residual(m, r).Finite? && keep(r) && Within(offsets, Residual(m, r).value)
  }

  function CoveredIn(m: Maths, d: DerivedOffsets, keep: HorizonResidual -> bool): HorizonResidual -> bool
  {
    (r: HorizonResidual) => Residual(m, r).Finite? && keep(r) && Covered(m, d, r)
  }

  /** Residuals in an hour below limit that has its own offsets. */
  function OwnBelow(d: DerivedOffsets, limit: nat): HorizonResidual -> bool
  {
    (r: HorizonResidual) => r.utcHour < limit && d.byHour[r.utcHour].Some?
  }

  /** Residuals in an hour that uses the pooled offsets. */
  function Thin(d: DerivedOffsets): HorizonResidual -> bool
  {
    (r: HorizonResidual) => d.byHour[r.utcHour].None?
  }

  lemma {:induction false} BucketCounts(m: Maths, residuals: seq<HorizonResidual>, keep: HorizonResidual -> bool, offsets: BandOffsets)
    ensures |Bucket(m, residuals, keep)| == Count(FiniteIn(m, keep), residuals)
    ensures Count(WithinThe(offsets), Bucket(m, residuals, keep)) == Count(WithinIn(m, keep, offsets), residuals)
  {
    hide Residual, Within;
    if residuals != [] {
      var n := |residuals| - 1;
      BucketCounts(m, residuals[..n], keep, offsets);
      var value := Residual(m, residuals[n]);
      if value.Finite? {
        CountPush(WithinThe(offsets), Bucket(m, residuals[..n], keep), value.value);
      }
    }
  }

  /** Own offsets cover their hour. */
  lemma HourIsCovered(m: Maths, d: DerivedOffsets, residuals: seq<HorizonResidual>, nominal: real, minHour: nat, h: UtcHour)
    requires Inverses(m) && 0.0 <= nominal <= 1.0
    requires d == DerivedOf(m, residuals, nominal, minHour) && d.byHour[h].Some?
    ensures Count(CoveredIn(m, d, InHour(h)), residuals) as real >= Share(nominal, Count(FiniteIn(m, InHour(h)), residuals))
  {
    hide OffsetsFromResiduals, Within, Covered, Residual, Inverses;
    var bucket := Bucket(m, residuals, InHour(h));
    var offsets := d.byHour[h].value;
    assert d.byHour[h] == HourOffset(m, residuals, nominal, minHour, h);
    NoOffsetsOfNothing(nominal);
    OffsetsCover(bucket, nominal);
    BucketCounts(m, residuals, InHour(h), offsets);
    forall r | r in residuals
      ensures CoveredIn(m, d, InHour(h))(r) <==> WithinIn(m, InHour(h), offsets)(r)
    {
      CoveredFinite(m, d, r);
    }
    CountSame(CoveredIn(m, d, InHour(h)), WithinIn(m, InHour(h), offsets), residuals);
  }

  lemma CoveredFinite(m: Maths, d: DerivedOffsets, r: HorizonResidual)
    requires Inverses(m)
    ensures Residual(m, r).Finite? && Scored(d, r) ==>
      (Covered(m, d, r) <==> Within(OffsetsForHour(r.utcHour, d).value, Residual(m, r).value))
    ensures Residual(m, r).Finite? <==> r.predicted.Finite? && r.actual.Finite?
  {
    if Residual(m, r).Finite? {
      CoveredByResidual(m, d, r);
    }
  }

  lemma {:induction false} OwnHoursAreCovered(m: Maths, d: DerivedOffsets, residuals: seq<HorizonResidual>, nominal: real, minHour: nat, limit: nat)
    requires Inverses(m) && 0.0 <= nominal <= 1.0 && limit <= 24
    requires d == DerivedOf(m, residuals, nominal, minHour)
    ensures Count(CoveredIn(m, d, OwnBelow(d, limit)), residuals) as real
         >= Share(nominal, Count(FiniteIn(m, OwnBelow(d, limit)), residuals))
  {
    hide Covered, Residual, Inverses, HourOffset, OffsetsFromResiduals;
    if limit == 0 {
      NothingCounted(FiniteIn(m, OwnBelow(d, 0)), residuals);
    } else {
      var h := limit - 1;
      OwnHoursAreCovered(m, d, residuals, nominal, minHour, h);
      if d.byHour[h].Some? {
        HourIsCovered(m, d, residuals, nominal, minHour, h);
        CountSplit(CoveredIn(m, d, OwnBelow(d, limit)), CoveredIn(m, d, OwnBelow(d, h)), CoveredIn(m, d, InHour(h)), residuals);
        CountSplit(FiniteIn(m, OwnBelow(d, limit)), FiniteIn(m, OwnBelow(d, h)), FiniteIn(m, InHour(h)), residuals);
        Distribute(nominal, Count(FiniteIn(m, OwnBelow(d, h)), residuals), Count(FiniteIn(m, InHour(h)), residuals));
      } else {
        CountSame(CoveredIn(m, d, OwnBelow(d, limit)), CoveredIn(m, d, OwnBelow(d, h)), residuals);
        CountSame(FiniteIn(m, OwnBelow(d, limit)), FiniteIn(m, OwnBelow(d, h)), residuals);
      }
    }
  }

  lemma Distribute(x: real, a: nat, b: nat)
    ensures Share(x, a + b) == Share(x, a) + Share(x, b)
  {
  }

  lemma {:induction false} NothingCounted<T>(p: T -> bool, xs: seq<T>)
    requires forall x :: x in xs ==> !p(x)
    ensures Count(p, xs) == 0
  {
    if xs != [] {
      NothingCounted(p, xs[..|xs| - 1]);
    }
  }

  lemma EveryHourIsOwnOrThin(d: DerivedOffsets, residuals: seq<HorizonResidual>)
    ensures forall r :: r in residuals ==> (Any(r) && (OwnBelow(d, 24)(r) <==> !Thin(d)(r)))
  {
    forall r | r in residuals
      ensures Any(r) && (OwnBelow(d, 24)(r) <==> !Thin(d)(r))
    {
      assert r.utcHour < 24;
    }
  }

  /** The pooled offsets cover the nominal fraction of all residuals, so they miss
      at most the others and those of hours with own offsets. */
  lemma ThinHoursAreCovered(m: Maths, d: DerivedOffsets, residuals: seq<HorizonResidual>, nominal: real, minHour: nat)
    requires Inverses(m) && 0.0 <= nominal <= 1.0
    requires d == DerivedOf(m, residuals, nominal, minHour)
    ensures Count(CoveredIn(m, d, Thin(d)), residuals) as real
         >= Share(nominal, Count(FiniteIn(m, Any), residuals)) - Count(FiniteIn(m, OwnBelow(d, 24)), residuals) as real
  {
    hide OffsetsFromResiduals, Within, Covered, Residual, Inverses, HourOffset;
    var all := Bucket(m, residuals, Any);
    var zero := BandOffsets(0.0, 0.0);
    BucketCounts(m, residuals, Any, zero);
    if all == [] {
      return;
    }
    OffsetsCover(all, nominal);
    var offsets := d.pooled.value;
    BucketCounts(m, residuals, Any, offsets);
    forall r | r in residuals
      ensures CoveredIn(m, d, Thin(d))(r) <==> WithinIn(m, Thin(d), offsets)(r)
    {
      CoveredFinite(m, d, r);
    }
    CountSame(CoveredIn(m, d, Thin(d)), WithinIn(m, Thin(d), offsets), residuals);
    EveryHourIsOwnOrThin(d, residuals);
    CountSplit(WithinIn(m, Any, offsets), WithinIn(m, Thin(d), offsets), WithinIn(m, OwnBelow(d, 24), offsets), residuals);
    CountMonotone(WithinIn(m, OwnBelow(d, 24), offsets), FiniteIn(m, OwnBelow(d, 24)), residuals);
  }

  /** The residuals in hours with own offsets. */
  function Own(m: Maths, d: DerivedOffsets, residuals: seq<HorizonResidual>): nat
  {
    Count(FiniteIn(m, OwnBelow(d, 24)), residuals)
  }

  /** The number of covered residuals is at least the nominal fraction of those in
      hours with own offsets, and the rest of the pooled guarantee. */
  lemma CoverageBound(m: Maths, d: DerivedOffsets, residuals: seq<HorizonResidual>, nominal: real, minHour: nat)
    requires Inverses(m) && 0.0 <= nominal <= 1.0
    requires d == DerivedOf(m, residuals, nominal, minHour)
    ensures var covered := Count(CoveredBy(m, d), residuals) as real;
      var all, own := Count(FiniteIn(m, Any), residuals), Own(m, d, residuals);
      covered >= Share(nominal, own) && covered >= Share(nominal, own) + Share(nominal, all) - own as real
  {
    hide Covered, Residual, Inverses, HourOffset, OffsetsFromResiduals;
    OwnHoursAreCovered(m, d, residuals, nominal, minHour, 24);
    ThinHoursAreCovered(m, d, residuals, nominal, minHour);
    EveryHourIsOwnOrThin(d, residuals);
    CountSplit(CoveredIn(m, d, Any), CoveredIn(m, d, OwnBelow(d, 24)), CoveredIn(m, d, Thin(d)), residuals);
    CountMonotone(CoveredIn(m, d, Any), CoveredBy(m, d), residuals);
  }

  ghost predicate AllFinite(residuals: seq<HorizonResidual>) {
    forall r :: r in residuals ==> r.predicted.Finite? && r.actual.Finite?
  }

  lemma {:induction false} EverythingCounted<T>(p: T -> bool, xs: seq<T>)
    requires forall x :: x in xs ==> p(x)
    ensures Count(p, xs) == |xs|
  {
    if xs != [] {
      EverythingCounted(p, xs[..|xs| - 1]);
    }
  }

  lemma FiniteCounts(m: Maths, d: DerivedOffsets, residuals: seq<HorizonResidual>, nominal: real, minHour: nat)
    requires Inverses(m) && AllFinite(residuals) && residuals != [] && 0.0 <= nominal <= 1.0
    requires d == DerivedOf(m, residuals, nominal, minHour)
    ensures Count(FiniteIn(m, Any), residuals) == |residuals|
    ensures d.pooled.Some?
    ensures Count(ScoredBy(d), residuals) == |residuals|
  {
    hide Covered, Inverses, HourOffset, OffsetsFromResiduals, Residual;
    forall r | r in residuals
      ensures FiniteIn(m, Any)(r)
    {
      CoveredFinite(m, d, r);
      assert r.predicted.Finite? && r.actual.Finite? && Any(r);
    }
    EverythingCounted(FiniteIn(m, Any), residuals);
    BucketCounts(m, residuals, Any, BandOffsets(0.0, 0.0));
    OffsetsCover(Bucket(m, residuals, Any), nominal);
    EverythingCounted(ScoredBy(d), residuals);
  }

  /** When every hour with residuals has own offsets, or none has, the observed
      coverage is at least the nominal one. */
  lemma CoverageReachesNominal(m: Maths, d: DerivedOffsets, residuals: seq<HorizonResidual>, nominal: real, minHour: nat)
    requires Inverses(m) && AllFinite(residuals) && residuals != [] && 0.0 <= nominal <= 1.0
    requires d == DerivedOf(m, residuals, nominal, minHour)
    requires Own(m, d, residuals) == 0 || Own(m, d, residuals) == |residuals|
    ensures Coverage(m, d, residuals) >= nominal
  {
    hide Count, Covered, Scored, Inverses, DerivedOf;
    FiniteCounts(m, d, residuals, nominal, minHour);
    CoverageBound(m, d, residuals, nominal, minHour);
    ShareOf(nominal, |residuals|);
    QuotientAtLeast(Count(CoveredBy(m, d), residuals), |residuals|, nominal);
  }

  lemma ShareOf(x: real, n: nat)
    ensures Share(x, 0) == 0.0
  {
  }

  lemma QuotientAtLeast(a: nat, n: nat, x: real)
    requires n > 0 && a as real >= Share(x, n)
    ensures a as real / n as real >= x
  {
    var q := a as real / n as real;
    assert q * n as real == a as real;
    var gap := LinearAlgebra.Times(x - q, n as real);
    assert gap == Share(x, n) - a as real;
  }

  // --- The artifact -----------------------------------------------------------------------------------

  datatype CalibratedBands = CalibratedBands(
    observed: Option<real>, calibrated: bool, offsets: DerivedOffsets, generatedAt: string)

  function NoOffsets(): DerivedOffsets {
    DerivedOffsets(seq(24, _ => None), None)
  }

  function Uncalibrated(observed: Option<real>): CalibratedBands {
    CalibratedBands(observed, false, NoOffsets(), "")
  }

  /** The artifact: dark with too few samples, dark with the measured coverage
      below the gate, and calibrated otherwise. */
  method BuildArtifact(m: Maths, residuals: seq<HorizonResidual>, generatedAt: string)
    returns (bands: CalibratedBands)
    ensures var derived := DerivedOf(m, residuals, 0.8, 14);
      var coverage := Coverage(m, derived, residuals);
      bands ==
        if |residuals| < 96 || derived.pooled.None? then Uncalibrated(None)
        else if coverage < 0.7 then Uncalibrated(Some(coverage))
        else CalibratedBands(Some(coverage), true, derived, generatedAt)
  {
    var d := DeriveBandOffsets(m, residuals, NOMINAL, MIN_HOUR_SAMPLES);
    if |residuals| < MIN_TOTAL_SAMPLES {
      return Uncalibrated(None);
    }
    if d.pooled.None? && forall h :: 0 <= h < 24 ==> d.byHour[h].None? {
      return Uncalibrated(None);
    }
    OwnNeedsPooled(m, d, residuals, NOMINAL, MIN_HOUR_SAMPLES);
    var coverage := ObservedCoverageOf(m, residuals, d);
    if coverage < GATE {
      return Uncalibrated(Some(coverage));
    }
    bands := CalibratedBands(Some(coverage), true, d, generatedAt);
  }

  /** Own offsets exist only where pooled ones do. */
  lemma OwnNeedsPooled(m: Maths, d: DerivedOffsets, residuals: seq<HorizonResidual>, nominal: real, minHour: nat)
    requires d == DerivedOf(m, residuals, nominal, minHour)
    ensures d.pooled.None? ==> forall h: nat :: h < 24 ==> d.byHour[h].None?
  {
    if d.pooled.None? {
      assert Bucket(m, residuals, Any) == [];
      forall h: nat | h < 24
        ensures d.byHour[h].None?
      {
        BucketIsSmaller(m, residuals, InHour(h));
        NoOffsetsOfNothing(nominal);
        assert d.byHour[h] == HourOffset(m, residuals, nominal, minHour, h);
      }
    }
  }

  lemma {:induction false} BucketIsSmaller(m: Maths, residuals: seq<HorizonResidual>, keep: HorizonResidual -> bool)
    ensures |Bucket(m, residuals, keep)| <= |Bucket(m, residuals, Any)|
  {
    if residuals != [] {
      BucketIsSmaller(m, residuals[..|residuals| - 1], keep);
    }
  }

  /** With finite prices the gate passes whenever at most half of the samples, or
      at least seven in eight, lie in hours with own offsets. */
  lemma GatePasses(m: Maths, d: DerivedOffsets, residuals: seq<HorizonResidual>)
    requires Inverses(m) && AllFinite(residuals) && residuals != []
    requires d == DerivedOf(m, residuals, NOMINAL, MIN_HOUR_SAMPLES)
    requires 2 * Own(m, d, residuals) <= |residuals| || 8 * Own(m, d, residuals) >= 7 * |residuals|
    ensures d.pooled.Some? && Coverage(m, d, residuals) >= GATE
  {
    hide Count, Covered, Scored, Inverses, DerivedOf;
    FiniteCounts(m, d, residuals, NOMINAL, MIN_HOUR_SAMPLES);
    CoverageBound(m, d, residuals, NOMINAL, MIN_HOUR_SAMPLES);
    QuotientAtLeast(Count(CoveredBy(m, d), residuals), |residuals|, GATE);
  }

  // --- The band of a point -----------------------------------------------------------------------------

  function ApplyBand(m: Maths, point: real, h: UtcHour, bands: CalibratedBands): Option<SpotBand>
  {
    var offsets := OffsetsForHour(h, bands.offsets);
    if !bands.calibrated || offsets.None? then None
    else
      var low := m.sinh(m.asinh(point) + offsets.value.low);
      var high := m.sinh(m.asinh(point) + offsets.value.high);
      Some(SpotBand(Round3(if low < point then low else point), Round3(if high > point then high else point)))
  }

  /** The band contains the rounded point. */
  lemma BandContainsRoundedPoint(m: Maths, point: real, h: UtcHour, bands: CalibratedBands)
    ensures var band := ApplyBand(m, point, h, bands);
      band.Some? ==> band.value.low <= Round3(point) <= band.value.high
  {
    var offsets := OffsetsForHour(h, bands.offsets);
    if bands.calibrated && offsets.Some? {
      var low := m.sinh(m.asinh(point) + offsets.value.low);
      var high := m.sinh(m.asinh(point) + offsets.value.high);
      Round3Monotone(if low < point then low else point, point);
      Round3Monotone(point, if high > point then high else point);
    }
  }

  /** Every calibrated band contains the point itself exactly when the point is on
      the grid of 0.001: rounding the bounds can leave another point outside. */
  lemma BandContainsPoint(m: Maths, point: real, h: UtcHour)
    requires Inverses(m)
    ensures OnGrid(point) <==>
      forall bands: CalibratedBands ::
        var band := ApplyBand(m, point, h, bands);
        band.Some? ==> band.value.low <= point <= band.value.high
  {
    Round3OnGrid(point);
    if OnGrid(point) {
      forall bands: CalibratedBands
        ensures var band := ApplyBand(m, point, h, bands);
          band.Some? ==> band.value.low <= point <= band.value.high
      {
        BandContainsRoundedPoint(m, point, h, bands);
      }
    } else {
      var flat := CalibratedBands(None, true, DerivedOffsets(seq(24, _ => None), Some(BandOffsets(0.0, 0.0))), "");
      var band := ApplyBand(m, point, h, flat);
      assert m.asinh(point) + 0.0 == m.asinh(point);
      assert band.value == SpotBand(Round3(point), Round3(point));
    }
  }

  /** There is a band exactly when the bands are calibrated and the hour has own
      offsets or there are pooled ones. */
  lemma BandExists(m: Maths, point: real, h: UtcHour, bands: CalibratedBands)
    ensures ApplyBand(m, point, h, bands).Some? <==>
      bands.calibrated && (bands.offsets.byHour[h].Some? || bands.offsets.pooled.Some?)
  {
  }

  /** The band of a covered price holds the price rounded like the band: what the
      coverage counts, the served band keeps. */
  lemma BandKeepsCoverage(m: Maths, bands: CalibratedBands, r: HorizonResidual)
    requires Inverses(m) && bands.calibrated && r.predicted.Finite? && r.actual.Finite?
    requires Covered(m, bands.offsets, r)
    ensures var band := ApplyBand(m, r.predicted.value, r.utcHour, bands);
      band.Some? && band.value.low <= Round3(r.actual.value) <= band.value.high
  {
    hide Round3;
    var point, actual := r.predicted.value, r.actual.value;
    var offsets := OffsetsForHour(r.utcHour, bands.offsets).value;
    var low, high := m.sinh(m.asinh(point) + offsets.low), m.sinh(m.asinh(point) + offsets.high);
    Round3Monotone(if low < point then low else point, actual);
    Round3Monotone(actual, if high > point then high else point);
  }

  /** The band is no wider than that: a price inside it by more than the rounding has
      a residual within the offsets, taken together with 0. */
  lemma BandIsTight(m: Maths, bands: CalibratedBands, r: HorizonResidual)
    requires Inverses(m) && r.predicted.Finite? && r.actual.Finite?
    ensures var band := ApplyBand(m, r.predicted.value, r.utcHour, bands);
      band.Some? && band.value.low + 0.0005 < r.actual.value < band.value.high - 0.0005 ==>
        var offsets := OffsetsForHour(r.utcHour, bands.offsets).value;
        var residual := m.asinh(r.actual.value) - m.asinh(r.predicted.value);
        (residual >= offsets.low || residual >= 0.0) && (residual <= offsets.high || residual <= 0.0)
  {
    hide Round3;
    var band := ApplyBand(m, r.predicted.value, r.utcHour, bands);
    if band.Some? {
      var point, actual := r.predicted.value, r.actual.value;
      var offsets := OffsetsForHour(r.utcHour, bands.offsets).value;
      var x, y := m.asinh(point), m.asinh(actual);
      assert m.sinh(x) == point && m.sinh(y) == actual;
      var low, high := m.sinh(x + offsets.low), m.sinh(x + offsets.high);
      Round3IsNear(if low < point then low else point);
      Round3IsNear(if high > point then high else point);
      SinhOrder(m, y, x);
      SinhOrder(m, x, y);
      SinhOrder(m, y, x + offsets.low);
      SinhOrder(m, x + offsets.high, y);
    }
  }

  function InBand(m: Maths, bands: CalibratedBands): HorizonResidual -> bool {
    (r: HorizonResidual) =>
      && r.predicted.Finite? && r.actual.Finite?
      && var band := ApplyBand(m, r.predicted.value, r.utcHour, bands);
         band.Some? && band.value.low <= Round3(r.actual.value) <= band.value.high
  }

  /** Over finite prices, the served bands hold at least the fraction of the rounded
      prices that the artifact reports as its coverage. */
  lemma ServedCoverage(m: Maths, bands: CalibratedBands, residuals: seq<HorizonResidual>)
    requires Inverses(m) && bands.calibrated && AllFinite(residuals)
    ensures Count(InBand(m, bands), residuals) >= Count(CoveredBy(m, bands.offsets), residuals)
  {
    forall r | r in residuals && CoveredBy(m, bands.offsets)(r)
      ensures InBand(m, bands)(r)
    {
      BandKeepsCoverage(m, bands, r);
    }
    CountMonotone(CoveredBy(m, bands.offsets), InBand(m, bands), residuals);
  }
}

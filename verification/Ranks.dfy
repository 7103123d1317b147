/** Average ranks and the Spearman rank correlation. */
module Ranks {
  import opened Common
  import opened LinearAlgebra
  import opened Sorting
  import opened WeightedSums

  datatype MetricsError = LengthMismatch(nat, nat) | Empty

  // --- The rank of a value ------------------------------------------------------------------------

  function Below(x: real): real -> bool {
    y => y < x
  }

  function EqualTo(x: real): real -> bool {
    y => y == x
  }

  /** The average 1-based rank of x: the smaller values come first, and the
      values equal to x share their ranks. */
  ghost function RankOf(values: seq<real>, x: real): real {
    Count(Below(x), values) as real + (Count(EqualTo(x), values) as real + 1.0) / 2.0
  }

  ghost function RanksOf(values: seq<real>): (r: Vector)
    ensures |r| == |values|
  {
    seq(|values|, i requires 0 <= i < |values| => RankOf(values, values[i]))
  }

  // --- Sorted positions ----------------------------------------------------------------------------

  function Indices(n: nat): (r: seq<nat>)
    ensures |r| == n && forall i :: 0 <= i < n ==> r[i] == i
  {
    seq(n, i => i)
  }

  function ValueAt(values: seq<real>): nat -> real {
    (i: nat) => if i < |values| then values[i] else 0.0
  }

  /** The indices of the values, stably sorted by value. */
  function Order(values: seq<real>): seq<nat> {
    Sort(ValueAt(values), Indices(|values|))
  }

  /** A permutation of the first n indices. */
  ghost predicate Permutes(order: seq<nat>, n: nat) {
    && |order| == n
    && (forall k :: 0 <= k < n ==> order[k] < n)
    && (forall i: nat :: i < n ==> i in order)
    && (forall j, k :: 0 <= j < k < n ==> order[j] != order[k])
  }

  lemma OrderPermutes(values: seq<real>)
    ensures Permutes(Order(values), |values|)
    ensures AscendingBy(ValueAt(values), Order(values))
  {
    hide Sort;
    var key, indices, order := ValueAt(values), Indices(|values|), Order(values);
    SortAscending(key, indices);
    SortMembers(key, indices);
    SortPermutes(key, indices);
    forall j, k | 0 <= j < k < |order|
      ensures order[j] != order[k]
    {
      if order[j] == order[k] {
        TwiceInMultiset(order, j, k);
        IndicesOnce(|values|, order[j]);
        assert false;
      }
    }
    forall k | 0 <= k < |order|
      ensures order[k] < |values|
    {
      assert order[k] in order;
    }
    forall i: nat | i < |values|
      ensures i in order
    {
      assert indices[i] in indices;
    }
  }

  lemma TwiceInMultiset(s: seq<nat>, j: nat, k: nat)
    requires j < k < |s| && s[j] == s[k]
    ensures multiset(s)[s[j]] >= 2
  {
    assert s == s[..k] + [s[k]] + s[k + 1..];
    assert s[j] in s[..k];
  }

  lemma {:induction false} IndicesOnce(n: nat, i: nat)
    ensures multiset(Indices(n))[i] == if i < n then 1 else 0
  {
    if n > 0 {
      assert Indices(n) == Indices(n - 1) + [n - 1];
      IndicesOnce(n - 1, i);
    }
  }

  /** Counting values is counting positions of the order. */
  lemma {:induction false} CountByIndex(p: real -> bool, values: seq<real>, n: nat)
    requires n <= |values|
    ensures Count(At(p, values), Indices(n)) == Count(p, values[..n])
  {
    if n > 0 {
      CountByIndex(p, values, n - 1);
      assert Indices(n)[..n - 1] == Indices(n - 1);
      assert values[..n][..n - 1] == values[..n - 1];
    }
  }

  function At(p: real -> bool, values: seq<real>): nat -> bool {
    (i: nat) => i < |values| && p(values[i])
  }

  lemma CountInOrder(p: real -> bool, values: seq<real>)
    ensures Count(At(p, values), Order(values)) == Count(p, values)
  {
    SortKeepsCounts(At(p, values), ValueAt(values), Indices(|values|));
    CountByIndex(p, values, |values|);
    assert values[..|values|] == values;
  }

  /** Only the positions from lo up to hi satisfy p. */
  lemma {:induction false} CountRange(p: nat -> bool, s: seq<nat>, lo: nat, hi: nat)
    requires lo <= hi <= |s|
    requires forall k :: 0 <= k < |s| ==> (p(s[k]) <==> lo <= k < hi)
    ensures Count(p, s) == hi - lo
  {
    if s != [] {
      var n := |s| - 1;
      CountRange(p, s[..n], if lo < n then lo else n, if hi < n then hi else n);
    }
  }

  /** A group of equal values from position i to j of the order has the average
      rank of these positions. */
  lemma GroupRank(values: seq<real>, i: nat, j: nat)
    requires i <= j < |values|
    requires |Order(values)| == |values| && AscendingBy(ValueAt(values), Order(values))
    requires forall k :: 0 <= k < |values| ==> Order(values)[k] < |values|
    requires var x := ValueAt(values)(Order(values)[i]);
      && x == ValueAt(values)(Order(values)[j])
      && (i > 0 ==> ValueAt(values)(Order(values)[i - 1]) != x)
      && (j + 1 < |values| ==> ValueAt(values)(Order(values)[j + 1]) != x)
    ensures RankOf(values, ValueAt(values)(Order(values)[i])) == (i + j) as real / 2.0 + 1.0
  {
    hide Order, Count;
    var key, order := ValueAt(values), Order(values);
    var x := key(order[i]);
    forall k | 0 <= k < |order|
      ensures At(Below(x), values)(order[k]) <==> 0 <= k < i
      ensures At(EqualTo(x), values)(order[k]) <==> i <= k < j + 1
    {
      if k < i {
        assert key(order[k]) <= key(order[i - 1]) <= x;
      } else if k <= j {
        assert x <= key(order[k]) <= key(order[j]);
      } else {
        assert x <= key(order[j + 1]) <= key(order[k]);
      }
    }
    CountRange(At(Below(x), values), order, 0, i);
    CountRange(At(EqualTo(x), values), order, i, j + 1);
    CountInOrder(Below(x), values);
    CountInOrder(EqualTo(x), values);
  }

  // --- The ranking loops ------------------------------------------------------------------------------

  /** The rank of every value; equal values share the mean of their positions. */
  method AverageRanks(values: seq<real>) returns (ranks: Vector)
    ensures ranks == RanksOf(values)
  {
    hide Order, RankOf;
    var n := |values|;
    var order := Order(values);
    OrderPermutes(values);
    var buffer := new real[n](_ => 0.0);
    var i := 0;
    while i < n
      invariant 0 <= i <= n
      invariant 0 < i < n ==> values[order[i - 1]] != values[order[i]]
      invariant forall k :: 0 <= k < i ==> buffer[order[k]] == RankOf(values, values[order[k]])
    {
      var j := i;
      while j + 1 < n && values[order[j + 1]] == values[order[i]]
        invariant i <= j < n
        invariant values[order[j]] == values[order[i]]
        invariant forall k :: i <= k <= j ==> values[order[k]] == values[order[i]]
      {
        j := j + 1;
      }
      var averageRank := (i + j) as real / 2.0 + 1.0;
      GroupRank(values, i, j);
      for k := i to j + 1
        invariant forall l :: 0 <= l < k ==> buffer[order[l]] == RankOf(values, values[order[l]])
      {
        buffer[order[k]] := averageRank;
      }
      i := j + 1;
    }
    ranks := buffer[..];
    forall m: nat | m < n
      ensures ranks[m] == RanksOf(values)[m]
    {
      assert m in order;
    }
  }

  // --- The sum of the ranks ------------------------------------------------------------------------------

  function Above(x: real): real -> bool {
    y => y > x
  }

  /** One more value x moves each earlier rank by 1 below x and by a half at x. */
  lemma {:induction false} TotalOfMovedRanks(front: seq<real>, x: real, k: nat)
    requires k <= |front|
    ensures Total(RanksOf(front + [x]), k) == Total(RanksOf(front), k)
      + Count(Above(x), front[..k]) as real + Count(EqualTo(x), front[..k]) as real / 2.0
  {
    hide Count;
    if k == 0 {
      CountNothing(Above(x));
      CountNothing(EqualTo(x));
    } else {
      TotalOfMovedRanks(front, x, k - 1);
      var y := front[k - 1];
      assert front[..k] == front[..k - 1] + [y];
      CountPush(Above(x), front[..k - 1], y);
      CountPush(EqualTo(x), front[..k - 1], y);
      CountPush(Below(y), front, x);
      CountPush(EqualTo(y), front, x);
      assert RanksOf(front + [x])[k - 1] == RankOf(front + [x], y);
      assert RanksOf(front)[k - 1] == RankOf(front, y);
    }
  }

  function Triangle(n: real): real {
    n * (n + 1.0) / 2.0
  }

  lemma CountNothing(p: real -> bool)
    ensures Count(p, []) == 0
  {
  }

  lemma CountThree(x: real, values: seq<real>)
    ensures Count(Below(x), values) + Count(EqualTo(x), values) + Count(Above(x), values) == |values|
  {
    var atMost := (y: real) => y <= x;
    var any := (y: real) => true;
    CountSplit(atMost, Below(x), EqualTo(x), values);
    CountSplit(any, atMost, Above(x), values);
    CountAll(any, values);
  }

  lemma {:induction false} CountAll(p: real -> bool, values: seq<real>)
    requires forall y :: p(y)
    ensures Count(p, values) == |values|
  {
    if values != [] {
      CountAll(p, values[..|values| - 1]);
    }
  }

  /** The ranks of n values sum to n(n + 1)/2, with any ties. */
  lemma {:induction false} RanksSum(values: seq<real>)
    ensures Total(RanksOf(values), |values|) == Triangle(|values| as real)
  {
    if values != [] {
      hide Count, RankOf, RanksOf, Total, Triangle;
      var m := |values| - 1;
      var front, x := values[..m], values[m];
      assert values == front + [x];
      RanksSum(front);
      TotalOfMovedRanks(front, x, m);
      assert front[..m] == front;
      CountThree(x, front);
      LastRank(front, x);
      LastOfTotal(values, m);
      NextTriangle(m as real);
    }
  }

  lemma LastOfTotal(values: seq<real>, m: nat)
    requires m < |values|
    ensures Total(RanksOf(values), m + 1) == Total(RanksOf(values), m) + RankOf(values, values[m])
  {
  }

  lemma NextTriangle(m: real)
    ensures Triangle(m + 1.0) == Triangle(m) + m + 1.0
  {
  }

  lemma LastRank(front: seq<real>, x: real)
    ensures RankOf(front + [x], x) == Count(Below(x), front) as real + Count(EqualTo(x), front) as real / 2.0 + 1.0
  {
    CountPush(Below(x), front, x);
    CountPush(EqualTo(x), front, x);
  }

  /** A larger value has a larger rank. */
  lemma RankOrder(values: seq<real>, x: real, y: real)
    requires x in values && x < y
    ensures RankOf(values, x) < RankOf(values, y)
  {
    var atMost := (z: real) => z <= x;
    CountSplit(atMost, Below(x), EqualTo(x), values);
    CountMonotone(atMost, Below(y), values);
    CountMember(EqualTo(x), values, x);
  }

  lemma {:induction false} CountMember(p: real -> bool, values: seq<real>, x: real)
    requires x in values && p(x)
    ensures Count(p, values) > 0
  {
    var n := |values| - 1;
    assert values == values[..n] + [values[n]];
    if x != values[n] {
      CountMember(p, values[..n], x);
    }
  }

  // --- Maps of the values -----------------------------------------------------------------------------------

  ghost predicate Increasing(f: real -> real) {
    forall x, y :: x < y ==> f(x) < f(y)
  }

  ghost predicate Decreasing(f: real -> real) {
    forall x, y :: x < y ==> f(x) > f(y)
  }

  lemma {:induction false} CountMapped(f: real -> real, p: real -> bool, q: real -> bool, values: seq<real>)
    requires forall x :: p(f(x)) <==> q(x)
    ensures Count(p, Mapped(f, values)) == Count(q, values)
  {
    if values != [] {
      var n := |values| - 1;
      assert Mapped(f, values)[..n] == Mapped(f, values[..n]);
      CountMapped(f, p, q, values[..n]);
    }
  }

  lemma IncreasingReflects(f: real -> real, x: real, y: real)
    requires Increasing(f)
    ensures (f(x) < f(y) <==> x < y) && (f(x) == f(y) <==> x == y)
  {
    assert x < y || x == y || y < x;
  }

  lemma DecreasingReflects(f: real -> real, x: real, y: real)
    requires Decreasing(f)
    ensures (f(x) < f(y) <==> x > y) && (f(x) == f(y) <==> x == y)
  {
    assert x < y || x == y || y < x;
  }

  /** Ranks depend only on the order of the values. */
  lemma RanksOfIncreasing(f: real -> real, values: seq<real>)
    requires Increasing(f)
    ensures RanksOf(Mapped(f, values)) == RanksOf(values)
  {
    hide Count;
    forall i | 0 <= i < |values|
      ensures RankOf(Mapped(f, values), f(values[i])) == RankOf(values, values[i])
    {
      var x := values[i];
      forall y
        ensures Below(f(x))(f(y)) <==> Below(x)(y)
        ensures EqualTo(f(x))(f(y)) <==> EqualTo(x)(y)
      {
        IncreasingReflects(f, y, x);
      }
      CountMapped(f, Below(f(x)), Below(x), values);
      CountMapped(f, EqualTo(f(x)), EqualTo(x), values);
    }
  }

  /** Reversing the order reverses the ranks. */
  lemma RanksOfDecreasing(f: real -> real, values: seq<real>, i: nat)
    requires Decreasing(f) && i < |values|
    ensures RanksOf(Mapped(f, values))[i] == |values| as real + 1.0 - RanksOf(values)[i]
  {
    hide Count;
    var x := values[i];
    forall y
      ensures Below(f(x))(f(y)) <==> Above(x)(y)
      ensures EqualTo(f(x))(f(y)) <==> EqualTo(x)(y)
    {
      DecreasingReflects(f, y, x);
    }
    CountMapped(f, Below(f(x)), Above(x), values);
    CountMapped(f, EqualTo(f(x)), EqualTo(x), values);
    CountThree(x, values);
  }

  // --- Spearman ------------------------------------------------------------------------------------------------

  /** The ranks less their mean. */
  ghost function Centered(ranks: Vector): (r: Vector)
    ensures |r| == |ranks|
  {
    var mean := if ranks == [] then 0.0 else Total(ranks, |ranks|) / |ranks| as real;
    seq(|ranks|, i requires 0 <= i < |ranks| => ranks[i] - mean)
  }

  /** The covariance of two rank vectors, and the variance when they are one. */
  ghost function Covariance(p: seq<real>, a: seq<real>): real
    requires |p| == |a|
  {
    Dot(Centered(RanksOf(p)), Centered(RanksOf(a)), |p|)
  }

  ghost function SpearmanOf(sqrt: real -> real, p: seq<real>, a: seq<real>): Option<real>
    requires |p| == |a|
  {
    var root := sqrt(Times(Covariance(p, p), Covariance(a, a)));
    if |p| < 2 || Covariance(p, p) == 0.0 || Covariance(a, a) == 0.0 || root == 0.0 then None
    else Some(Covariance(p, a) / root)
  }

  method Mean(xs: Vector) returns (mean: real)
    requires xs != []
    ensures mean == Total(xs, |xs|) / |xs| as real
  {
    var sum := 0.0;
    for i := 0 to |xs|
      invariant sum == Total(xs, i)
    {
      sum := sum + xs[i];
    }
    mean := sum / |xs| as real;
  }

  /** Spearman rank correlation of two paired series. */
  method Spearman(sqrt: real -> real, pred: seq<real>, act: seq<real>) returns (r: Result<Option<real>, MetricsError>)
    requires ExactSqrt(sqrt)
    ensures r == if |pred| != |act| then Err(LengthMismatch(|pred|, |act|))
                 else if pred == [] then Err(Empty)
                 else Ok(SpearmanOf(sqrt, pred, act))
  {
    hide Dot, RankOf, Total;
    if |pred| != |act| {
      return Err(LengthMismatch(|pred|, |act|));
    }
    if |pred| == 0 {
      return Err(Empty);
    }
    var n := |pred|;
    if n < 2 {
      return Ok(None);
    }
    var rp := AverageRanks(pred);
    var ra := AverageRanks(act);
    var mp := Mean(rp);
    var ma := Mean(ra);
    var cov, vp, va := 0.0, 0.0, 0.0;
    ghost var p, a := Centered(rp), Centered(ra);
    DotEmpty(p, a);
    DotEmpty(p, p);
    DotEmpty(a, a);
    for i := 0 to n
      invariant cov == Dot(p, a, i) && vp == Dot(p, p, i) && va == Dot(a, a, i)
    {
      DotLast(p, a, i);
      DotLast(p, p, i);
      DotLast(a, a, i);
      var dp, da := rp[i] - mp, ra[i] - ma;
      cov := cov + dp * da;
      vp := vp + dp * dp;
      va := va + da * da;
    }
    if vp == 0.0 || va == 0.0 {
      return Ok(None);
    }
    ProductRoot(sqrt, pred, act);
    var root := sqrt(Times(vp, va));
    r := Ok(Some(cov / root));
  }

  lemma VarianceNonNegative(p: seq<real>)
    ensures Covariance(p, p) >= 0.0
  {
    DotSquare(Centered(RanksOf(p)), |p|);
  }

  lemma ProductRoot(sqrt: real -> real, p: seq<real>, a: seq<real>)
    requires ExactSqrt(sqrt) && Covariance(p, p) != 0.0 && Covariance(a, a) != 0.0
    ensures Covariance(p, p) > 0.0 && Covariance(a, a) > 0.0
    ensures var root := sqrt(Times(Covariance(p, p), Covariance(a, a)));
      root > 0.0 && root * root == Times(Covariance(p, p), Covariance(a, a))
  {
    hide Covariance, Times;
    VarianceNonNegative(p);
    VarianceNonNegative(a);
    assert Times(Covariance(p, p), Covariance(a, a)) > 0.0;
  }

  // --- Cauchy and Schwarz -------------------------------------------------------------------------------------------

  lemma CauchySchwarz(p: Vector, a: Vector, n: nat)
    requires n <= |p| == |a|
    ensures Squared(Dot(p, a, n)) <= Times(Dot(p, p, n), Dot(a, a, n))
  {
    hide Dot;
    var cov, vp, va := Dot(p, a, n), Dot(p, p, n), Dot(a, a, n);
    DotSquare(p, n);
    DotSquare(a, n);
    DotCommutes(p, a, n);
    if va == 0.0 {
      ZeroVector(a, n);
      DotTail(a, p, 0, n);
      DotEmpty(a, p);
      assert Squared(cov) == 0.0;
    } else {
      SlopeBound(p, a, n, cov / va);
    }
  }

  /** The dot products of w = s·a + p. */
  lemma DotWithRemainder(x: Vector, p: Vector, a: Vector, w: Vector, n: nat, s: real)
    requires n <= |x| && n <= |p| && n <= |a| && n <= |w|
    requires forall i :: 0 <= i < n ==> w[i] == s * a[i] + p[i]
    ensures Dot(w, x, n) == Times(s, Dot(x, a, n)) + Dot(x, p, n)
  {
    hide Dot;
    DotLinear(x, s, a, p, w, n);
    DotCommutes(w, x, n);
  }

  ghost function Remainder(p: Vector, a: Vector, s: real): (w: Vector)
    requires |p| == |a|
    ensures |w| == |p| && forall i :: 0 <= i < |p| ==> w[i] == s * a[i] + p[i]
  {
    seq(|p|, i requires 0 <= i < |p| => s * a[i] + p[i])
  }

  /** The best multiple of a leaves a remainder of p that has no negative square. */
  lemma SlopeBound(p: Vector, a: Vector, n: nat, t: real)
    requires n <= |p| == |a| && Dot(a, a, n) > 0.0 && Times(t, Dot(a, a, n)) == Dot(p, a, n)
    ensures Squared(Dot(p, a, n)) <= Times(Dot(p, p, n), Dot(a, a, n))
  {
    hide Dot, Squared, Times, Remainder;
    var s := -t;
    var w := Remainder(p, a, s);
    DotWithRemainder(w, p, a, w, n, s);
    DotWithRemainder(a, p, a, w, n, s);
    DotWithRemainder(p, p, a, w, n, s);
    DotCommutes(p, a, n);
    DotSquare(w, n);
    Discriminant(Dot(p, a, n), Dot(p, p, n), Dot(a, a, n), t, Dot(w, a, n), Dot(w, p, n), Dot(w, w, n));
  }

  lemma ZeroVector(a: Vector, n: nat)
    requires n <= |a| && Dot(a, a, n) == 0.0
    ensures forall i :: 0 <= i < n ==> a[i] == 0.0
  {
    DotSquare(a, n);
    forall i | 0 <= i < n
      ensures a[i] == 0.0
    {
      assert Squared(a[i]) == a[i] * a[i] <= 0.0;
    }
  }

  lemma Discriminant(cov: real, vp: real, va: real, t: real, wa: real, wp: real, ww: real)
    requires va > 0.0 && Times(t, va) == cov
    requires wa == Times(-t, va) + cov && wp == Times(-t, cov) + vp && ww == Times(-t, wa) + wp && ww >= 0.0
    ensures Squared(cov) <= Times(vp, va)
  {
    assert wa == 0.0;
    var gap := vp - t * cov;
    assert gap >= 0.0;
    var product := Times(gap, va);
    assert product >= 0.0;
    assert product == vp * va - (t * va) * cov;
  }

  lemma SquareOrder(c: real, s: real)
    requires s >= 0.0 && Squared(c) <= Squared(s)
    ensures -s <= c <= s
  {
    var above, below := Times(c - s, c + s), Times(s - c, -c - s);
    assert above == Squared(c) - Squared(s) && below == Squared(c) - Squared(s);
  }

  /** A correlation lies between -1 and 1. */
  lemma SpearmanIsBounded(sqrt: real -> real, p: seq<real>, a: seq<real>)
    requires ExactSqrt(sqrt) && |p| == |a|
    ensures SpearmanOf(sqrt, p, a).Some? ==> -1.0 <= SpearmanOf(sqrt, p, a).value <= 1.0
  {
    hide Covariance, Times, Squared;
    if SpearmanOf(sqrt, p, a).Some? {
      ProductRoot(sqrt, p, a);
      CovarianceBound(p, a);
      var root := sqrt(Times(Covariance(p, p), Covariance(a, a)));
      RootBounds(Covariance(p, a), root, Times(Covariance(p, p), Covariance(a, a)));
      hide *;
      QuotientBounded(Covariance(p, a), root);
    }
  }

  lemma CovarianceBound(p: seq<real>, a: seq<real>)
    requires |p| == |a|
    ensures Squared(Covariance(p, a)) <= Times(Covariance(p, p), Covariance(a, a))
  {
    hide Dot, Centered, RanksOf, Times, Squared;
    CauchySchwarz(Centered(RanksOf(p)), Centered(RanksOf(a)), |p|);
  }

  lemma RootBounds(c: real, root: real, product: real)
    requires root > 0.0 && root * root == product && Squared(c) <= product
    ensures -root <= c <= root
  {
    assert Squared(root) == root * root;
    SquareOrder(c, root);
  }

  lemma QuotientBounded(c: real, s: real)
    requires s > 0.0 && -s <= c <= s
    ensures -1.0 <= c / s <= 1.0
  {
    var q := c / s;
    assert q * s == c;
    var above, below := Times(q - 1.0, s), Times(-1.0 - q, s);
    assert above == c - s && below == -s - c;
  }

  // --- When there is a correlation ---------------------------------------------------------------------------------

  ghost predicate Constant(values: seq<real>) {
    forall i, j :: 0 <= i < |values| && 0 <= j < |values| ==> values[i] == values[j]
  }

  lemma {:induction false} TotalOfConstant(w: seq<real>, x: real, n: nat)
    requires n <= |w| && forall i :: 0 <= i < n ==> w[i] == x
    ensures Total(w, n) == n as real * x
  {
    if n > 0 {
      TotalOfConstant(w, x, n - 1);
    }
  }

  lemma QuotientOf(total: real, n: real, x: real)
    requires n > 0.0 && total == n * x
    ensures total / n == x
  {
    var q := total / n;
    assert q * n == total;
    assert n * (q - x) == 0.0;
  }

  lemma VarianceIsZero(values: seq<real>)
    requires values != []
    ensures Covariance(values, values) == 0.0 <==> Constant(values)
  {
    hide RankOf;
    var ranks, n := RanksOf(values), |values|;
    var centered := Centered(ranks);
    if Constant(values) {
      TotalOfConstant(ranks, ranks[0], n);
      QuotientOf(Total(ranks, n), n as real, ranks[0]);
      forall i | 0 <= i < n
        ensures centered[i] == 0.0
      {
        assert values[i] == values[0];
      }
      DotTail(centered, centered, 0, n);
      DotEmpty(centered, centered);
    } else if Dot(centered, centered, n) == 0.0 {
      ZeroVector(centered, n);
      var i, j :| 0 <= i < n && 0 <= j < n && values[i] != values[j];
      assert ranks[i] == ranks[j] by {
        assert centered[i] == centered[j];
      }
      RankOrder(values, if values[i] < values[j] then values[i] else values[j],
                if values[i] < values[j] then values[j] else values[i]);
    }
  }

  /** There is no correlation exactly for fewer than two values or a constant
      series. */
  lemma SpearmanIsNone(sqrt: real -> real, p: seq<real>, a: seq<real>)
    requires ExactSqrt(sqrt) && |p| == |a|
    ensures SpearmanOf(sqrt, p, a).None? <==> |p| < 2 || Constant(p) || Constant(a)
  {
    hide Covariance, Constant;
    if |p| >= 2 {
      VarianceIsZero(p);
      VarianceIsZero(a);
      if Covariance(p, p) != 0.0 && Covariance(a, a) != 0.0 {
        ProductRoot(sqrt, p, a);
      }
    }
  }

  // --- Order invariance -----------------------------------------------------------------------------------------------

  lemma SpearmanCommutes(sqrt: real -> real, p: seq<real>, a: seq<real>)
    requires |p| == |a|
    ensures SpearmanOf(sqrt, p, a) == SpearmanOf(sqrt, a, p)
  {
    DotCommutes(Centered(RanksOf(p)), Centered(RanksOf(a)), |p|);
    assert Times(Covariance(p, p), Covariance(a, a)) == Times(Covariance(a, a), Covariance(p, p));
  }

  /** Only the order of each series matters. */
  lemma SpearmanOfIncreasing(sqrt: real -> real, f: real -> real, g: real -> real, p: seq<real>, a: seq<real>)
    requires Increasing(f) && Increasing(g) && |p| == |a|
    ensures SpearmanOf(sqrt, Mapped(f, p), Mapped(g, a)) == SpearmanOf(sqrt, p, a)
  {
    RanksOfIncreasing(f, p);
    RanksOfIncreasing(g, a);
  }

  /** A series correlates fully with itself. */
  lemma SpearmanOfSelf(sqrt: real -> real, p: seq<real>)
    requires ExactSqrt(sqrt) && |p| >= 2 && !Constant(p)
    ensures SpearmanOf(sqrt, p, p) == Some(1.0)
  {
    hide Covariance;
    VarianceIsZero(p);
    ProductRoot(sqrt, p, p);
    var v, root := Covariance(p, p), sqrt(Times(Covariance(p, p), Covariance(p, p)));
    assert Squared(root) == Squared(v);
    SquareOrder(v, root);
    SquareOrder(root, v);
    SelfRatio(v);
  }

  lemma SelfRatio(v: real)
    requires v > 0.0
    ensures v / v == 1.0
  {
    var q := v / v;
    assert q * v == v;
    var above, below := Times(q - 1.0, v), Times(1.0 - q, v);
    assert above == 0.0 && below == 0.0;
  }

  lemma MeanRank(values: seq<real>)
    requires values != []
    ensures Total(RanksOf(values), |values|) / |values| as real == (|values| as real + 1.0) / 2.0
  {
    hide RankOf, RanksOf, Total;
    RanksSum(values);
    MeanOfSum(|values| as real, Total(RanksOf(values), |values|));
  }

  lemma MeanOfSum(n: real, sum: real)
    requires n > 0.0 && sum == Triangle(n)
    ensures sum / n == (n + 1.0) / 2.0
  {
    var q := (n + 1.0) / 2.0;
    var mean := sum / n;
    assert mean * n == sum == q * n;
    var above, below := Times(mean - q, n), Times(q - mean, n);
    assert above == 0.0 && below == 0.0;
  }

  lemma CenteredOfDecreasing(f: real -> real, values: seq<real>, i: nat)
    requires Decreasing(f) && i < |values|
    ensures Centered(RanksOf(Mapped(f, values)))[i] == -Centered(RanksOf(values))[i]
  {
    hide RankOf, RanksOf;
    MeanRank(values);
    MeanRank(Mapped(f, values));
    RanksOfDecreasing(f, values, i);
  }

  lemma {:induction false} DotNegated(u: Vector, v: Vector, w: Vector, n: nat)
    requires n <= |u| && n <= |v| && n <= |w|
    requires forall i :: 0 <= i < n ==> u[i] == -v[i]
    ensures Dot(u, w, n) == -Dot(v, w, n)
  {
    if n > 0 {
      DotNegated(u, v, w, n - 1);
    }
  }

  /** Reversing the order of one series negates the correlation. */
  lemma SpearmanOfDecreasing(sqrt: real -> real, f: real -> real, p: seq<real>, a: seq<real>)
    requires Decreasing(f) && |p| == |a|
    ensures SpearmanOf(sqrt, Mapped(f, p), a) ==
      var r := SpearmanOf(sqrt, p, a); if r.None? then None else Some(-r.value)
  {
    hide Dot, RanksOf;
    var q := Mapped(f, p);
    var u, v, w, n := Centered(RanksOf(q)), Centered(RanksOf(p)), Centered(RanksOf(a)), |p|;
    forall i: nat | i < n
      ensures u[i] == -v[i]
    {
      CenteredOfDecreasing(f, p, i);
    }
    DotNegated(u, v, w, n);
    DotNegated(u, v, u, n);
    DotNegated(u, v, v, n);
    DotCommutes(v, u, n);
    assert Covariance(q, q) == Covariance(p, p);
    assert Covariance(q, a) == -Covariance(p, a);
    var root := sqrt(Times(Covariance(p, p), Covariance(a, a)));
    if root != 0.0 {
      assert -Covariance(p, a) / root == -(Covariance(p, a) / root);
    }
  }
}

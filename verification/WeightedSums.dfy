/** Weighted sums over samples, and samples repeated by a count. */
module WeightedSums {
  import opened LinearAlgebra

  /** The sum of w[i]·f(xs[i]) over the first n samples. */
  ghost function Sum<T>(f: T -> real, xs: seq<T>, w: seq<real>, n: nat): real
    requires n <= |xs| && n <= |w|
  {
    if n == 0 then 0.0 else Sum(f, xs, w, n - 1) + Times(w[n - 1], f(xs[n - 1]))
  }

  /** The sum of the first n weights. */
  ghost function Total(w: seq<real>, n: nat): real
    requires n <= |w|
  {
    if n == 0 then 0.0 else Total(w, n - 1) + w[n - 1]
  }

  ghost function Ones(n: nat): (w: seq<real>)
    ensures |w| == n
  {
    seq(n, i => 1.0)
  }

  /** The counts as weights. */
  ghost function Weights(counts: seq<nat>): (w: seq<real>)
    ensures |w| == |counts|
  {
    seq(|counts|, i requires 0 <= i < |counts| => counts[i] as real)
  }

  ghost function Copies<T>(x: T, count: nat): (r: seq<T>)
    ensures |r| == count
  {
    seq(count, i => x)
  }

  /** Each of the first n entries of xs, repeated by its count. */
  ghost function Repeat<T>(xs: seq<T>, counts: seq<nat>, n: nat): seq<T>
    requires n <= |xs| && n <= |counts|
  {
    if n == 0 then [] else Repeat(xs, counts, n - 1) + Copies(xs[n - 1], counts[n - 1])
  }

  ghost function Mapped<T, U>(f: T -> U, xs: seq<T>): (r: seq<U>)
    ensures |r| == |xs|
  {
    seq(|xs|, i requires 0 <= i < |xs| => f(xs[i]))
  }

  lemma SumLast<T>(f: T -> real, xs: seq<T>, w: seq<real>, n: nat)
    requires n < |xs| && n < |w|
    ensures Sum(f, xs, w, n + 1) == Sum(f, xs, w, n) + Times(w[n], f(xs[n]))
  {
  }

  lemma {:induction false} TotalOfOnes(n: nat, m: nat)
    requires n <= m
    ensures Total(Ones(m), n) == n as real
  {
    if n > 0 {
      TotalOfOnes(n - 1, m);
    }
  }

  /** A sum reads only the first n samples and weights. */
  lemma {:induction false} SumSame<T>(f: T -> real, xs: seq<T>, w: seq<real>, ys: seq<T>, v: seq<real>, n: nat)
    requires n <= |xs| && n <= |w| && n <= |ys| && n <= |v|
    requires forall i :: 0 <= i < n ==> xs[i] == ys[i] && w[i] == v[i]
    ensures Sum(f, xs, w, n) == Sum(f, ys, v, n)
  {
    if n > 0 {
      SumSame(f, xs, w, ys, v, n - 1);
    }
  }

  /** Copies of x appended to xs add one f(x) each. */
  lemma {:induction false} SumOfCopies<T>(f: T -> real, xs: seq<T>, x: T, count: nat)
    ensures var all := xs + Copies(x, count);
      Sum(f, all, Ones(|all|), |all|) == Sum(f, xs, Ones(|xs|), |xs|) + Times(count as real, f(x))
  {
    var all := xs + Copies(x, count);
    if count == 0 {
      SumSame(f, all, Ones(|all|), xs, Ones(|xs|), |xs|);
    } else {
      SumOfCopies(f, xs, x, count - 1);
      var less := xs + Copies(x, count - 1);
      SumSame(f, all, Ones(|all|), less, Ones(|less|), |less|);
      assert all[|less|] == x;
      assert Times(count as real, f(x)) == Times((count - 1) as real, f(x)) + Times(1.0, f(x));
    }
  }

  /** Weights that are counts sum like repeated samples. */
  lemma {:induction false} SumOfRepeated<T>(f: T -> real, xs: seq<T>, counts: seq<nat>, n: nat)
    requires n <= |xs| && n <= |counts|
    ensures var all := Repeat(xs, counts, n);
      Sum(f, all, Ones(|all|), |all|) == Sum(f, xs, Weights(counts), n)
  {
    if n > 0 {
      hide Sum;
      hide Times;
      SumOfRepeated(f, xs, counts, n - 1);
      var before := Repeat(xs, counts, n - 1);
      SumOfCopies(f, before, xs[n - 1], counts[n - 1]);
      assert Repeat(xs, counts, n) == before + Copies(xs[n - 1], counts[n - 1]);
      SumLast(f, xs, Weights(counts), n - 1);
    }
  }

  lemma {:induction false} RepeatLength<T>(xs: seq<T>, counts: seq<nat>, n: nat)
    requires n <= |xs| && n <= |counts|
    ensures |Repeat(xs, counts, n)| as real == Total(Weights(counts), n)
  {
    if n > 0 {
      RepeatLength(xs, counts, n - 1);
    }
  }

  lemma {:induction false} RepeatMapped<T, U>(f: T -> U, xs: seq<T>, counts: seq<nat>, n: nat)
    requires n <= |xs| && n <= |counts|
    ensures Repeat(Mapped(f, xs), counts, n) == Mapped(f, Repeat(xs, counts, n))
  {
    if n > 0 {
      RepeatMapped(f, xs, counts, n - 1);
    }
  }
}

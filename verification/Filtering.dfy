/** Filtering a sequence in order. */
module Filtering {

  /** The entries of xs that satisfy p, in order. */
  function Filter<T(!new)>(p: T -> bool, xs: seq<T>): (r: seq<T>)
    ensures forall x :: x in r <==> x in xs && p(x)
  {
    if xs == [] then []
    else
      var n := |xs| - 1;
      assert xs == xs[..n] + [xs[n]];
      if p(xs[n]) then Filter(p, xs[..n]) + [xs[n]] else Filter(p, xs[..n])
  }

  lemma FilterPush<T(!new)>(p: T -> bool, xs: seq<T>, x: T)
    ensures Filter(p, xs + [x]) == if p(x) then Filter(p, xs) + [x] else Filter(p, xs)
  {
    assert (xs + [x])[..|xs|] == xs;
  }

  /** A filter reads only what a weaker filter keeps. */
  lemma {:induction false} FilterOfFilter<T(!new)>(p: T -> bool, q: T -> bool, xs: seq<T>)
    requires forall x :: x in xs && p(x) ==> q(x)
    ensures Filter(p, xs) == Filter(p, Filter(q, xs))
  {
    if xs != [] {
      hide Filter;
      var front, last := xs[..|xs| - 1], xs[|xs| - 1];
      assert xs == front + [last];
      FilterOfFilter(p, q, front);
      FilterPush(p, front, last);
      FilterPush(q, front, last);
      FilterPush(p, Filter(q, front), last);
    }
  }
}

/** Sums and counts of a quarter map over the quarters of one UTC day. */
module DaySums {
  import opened Quarters
  import opened Ordered

  predicate On(m: QuarterMap, day: int, q: int) {
    q in m && UtcDayStart(q) == day
  }

  /** The sum of m over the first n keys that it holds on the day. */
  ghost function SumOn(m: QuarterMap, keys: seq<int>, n: nat, day: int): real
    requires n <= |keys|
  {
    if n == 0 then 0.0
    else SumOn(m, keys, n - 1, day) + if On(m, day, keys[n - 1]) then m[keys[n - 1]] else 0.0
  }

  ghost function CountOn(m: QuarterMap, keys: seq<int>, n: nat, day: int): nat
    requires n <= |keys|
  {
    if n == 0 then 0
    else CountOn(m, keys, n - 1, day) + if On(m, day, keys[n - 1]) then 1 else 0
  }

  /** The sum of a map over a whole UTC day. */
  ghost function DaySum(m: QuarterMap, day: int): real {
    SumOn(m, Ascending(m.Keys), |Ascending(m.Keys)|, day)
  }

  ghost function DayCount(m: QuarterMap, day: int): nat {
    CountOn(m, Ascending(m.Keys), |Ascending(m.Keys)|, day)
  }

  lemma SumStep(m: QuarterMap, keys: seq<int>, n: nat, day: int)
    requires n < |keys|
    ensures SumOn(m, keys, n + 1, day) == SumOn(m, keys, n, day) + if On(m, day, keys[n]) then m[keys[n]] else 0.0
    ensures CountOn(m, keys, n + 1, day) == CountOn(m, keys, n, day) + if On(m, day, keys[n]) then 1 else 0
  {
  }

  lemma SumNone(m: QuarterMap, keys: seq<int>, day: int)
    ensures SumOn(m, keys, 0, day) == 0.0 && CountOn(m, keys, 0, day) == 0
  {
  }

  lemma {:induction false} CountPositive(m: QuarterMap, keys: seq<int>, n: nat, i: nat, day: int)
    requires i < n <= |keys| && On(m, day, keys[i])
    ensures CountOn(m, keys, n, day) > 0
  {
    if i < n - 1 {
      CountPositive(m, keys, n - 1, i, day);
    }
  }

  /** A sum on an empty day is 0. */
  lemma {:induction false} SumOfEmptyDay(m: QuarterMap, keys: seq<int>, n: nat, day: int)
    requires n <= |keys| && CountOn(m, keys, n, day) == 0
    ensures SumOn(m, keys, n, day) == 0.0
  {
    if n > 0 {
      SumOfEmptyDay(m, keys, n - 1, day);
    }
  }

  ghost predicate Listed(a: seq<int>, i: nat, q: int)
    requires i <= |a|
  {
    exists k :: 0 <= k < i && a[k] == q
  }

  /** The sum over an ascending list that holds the keys of m does not depend on
      what else the list holds. */
  lemma {:induction false} SumOverMore(m: QuarterMap, a: seq<int>, i: nat, b: seq<int>, j: nat, day: int)
    requires i <= |a| && j <= |b| && StrictlyAscending(a) && StrictlyAscending(b)
    requires forall k :: 0 <= k < i ==> a[k] in m && Listed(b, j, a[k])
    requires forall k :: 0 <= k < j && b[k] in m ==> Listed(a, i, b[k])
    ensures SumOn(m, a, i, day) == SumOn(m, b, j, day) && CountOn(m, a, i, day) == CountOn(m, b, j, day)
    decreases j
  {
    if i > 0 {
      assert Listed(b, j, a[i - 1]);
    }
    if j > 0 {
      hide UtcDayStart;
      var q := b[j - 1];
      if q in m {
        assert Listed(a, i, q);
        assert a[i - 1] == q by {
          assert Listed(b, j, a[i - 1]);
        }
        forall k | 0 <= k < i - 1
          ensures Listed(b, j - 1, a[k])
        {
          assert Listed(b, j, a[k]) && a[k] < q;
        }
        forall k | 0 <= k < j - 1 && b[k] in m
          ensures Listed(a, i - 1, b[k])
        {
          assert Listed(a, i, b[k]) && b[k] < q;
        }
        SumOverMore(m, a, i - 1, b, j - 1, day);
      } else {
        forall k | 0 <= k < i
          ensures Listed(b, j - 1, a[k])
        {
          assert Listed(b, j, a[k]) && a[k] in m;
        }
        SumOverMore(m, a, i, b, j - 1, day);
      }
    }
  }

  lemma DaySumOverMore(m: QuarterMap, more: set<int>, day: int)
    requires m.Keys <= more
    ensures SumOn(m, Ascending(more), |Ascending(more)|, day) == DaySum(m, day)
    ensures CountOn(m, Ascending(more), |Ascending(more)|, day) == DayCount(m, day)
  {
    hide SumOn, CountOn, On, Ascending;
    var a, b := Ascending(m.Keys), Ascending(more);
    forall k | 0 <= k < |a|
      ensures a[k] in m && Listed(b, |b|, a[k])
    {
      assert a[k] in a;
      assert a[k] in b;
    }
    forall k | 0 <= k < |b| && b[k] in m
      ensures Listed(a, |a|, b[k])
    {
      assert b[k] in a;
    }
    SumOverMore(m, a, |a|, b, |b|, day);
  }
}

/** The stable sort of the standard library by a real key, and counting. */
module Sorting {
  import opened Filtering

  /** Puts x after the entries of s whose key is not larger. */
  function Insert<T>(key: T -> real, x: T, s: seq<T>): seq<T> {
    if s == [] then [x]
    else
      var n := |s| - 1;
      if key(s[n]) <= key(x) then s + [x] else Insert(key, x, s[..n]) + [s[n]]
  }

  function Sort<T>(key: T -> real, xs: seq<T>): seq<T> {
    if xs == [] then []
    else
      var n := |xs| - 1;
      Insert(key, xs[n], Sort(key, xs[..n]))
  }

  ghost predicate AscendingBy<T>(key: T -> real, s: seq<T>) {
    forall i, j :: 0 <= i <= j < |s| ==> key(s[i]) <= key(s[j])
  }

  /** The number of entries that satisfy p. */
  function Count<T>(p: T -> bool, xs: seq<T>): nat {
    if xs == [] then 0
    else
      var n := |xs| - 1;
      Count(p, xs[..n]) + if p(xs[n]) then 1 else 0
  }

  lemma CountPush<T>(p: T -> bool, xs: seq<T>, x: T)
    ensures Count(p, xs + [x]) == Count(p, xs) + if p(x) then 1 else 0
  {
    assert (xs + [x])[..|xs|] == xs;
  }

  lemma {:induction false} CountSplit<T>(p: T -> bool, q: T -> bool, r: T -> bool, xs: seq<T>)
    requires forall x :: x in xs ==> (p(x) <==> q(x) || r(x)) && !(q(x) && r(x))
    ensures Count(p, xs) == Count(q, xs) + Count(r, xs)
  {
    if xs != [] {
      CountSplit(p, q, r, xs[..|xs| - 1]);
    }
  }

  lemma {:induction false} CountMonotone<T>(p: T -> bool, q: T -> bool, xs: seq<T>)
    requires forall x :: x in xs && p(x) ==> q(x)
    ensures Count(p, xs) <= Count(q, xs)
  {
    if xs != [] {
      CountMonotone(p, q, xs[..|xs| - 1]);
    }
  }

  lemma {:induction false} CountSame<T>(p: T -> bool, q: T -> bool, xs: seq<T>)
    requires forall x :: x in xs ==> (p(x) <==> q(x))
    ensures Count(p, xs) == Count(q, xs)
  {
    if xs != [] {
      CountSame(p, q, xs[..|xs| - 1]);
    }
  }

  lemma {:induction false} CountInsert<T>(p: T -> bool, key: T -> real, x: T, s: seq<T>)
    ensures Count(p, Insert(key, x, s)) == Count(p, s) + if p(x) then 1 else 0
  {
    if s != [] {
      var n := |s| - 1;
      CountPush(p, s, x);
      CountInsert(p, key, x, s[..n]);
      CountPush(p, Insert(key, x, s[..n]), s[n]);
    }
  }

  lemma {:induction false} SortKeepsCounts<T>(p: T -> bool, key: T -> real, xs: seq<T>)
    ensures Count(p, Sort(key, xs)) == Count(p, xs)
  {
    if xs != [] {
      var n := |xs| - 1;
      SortKeepsCounts(p, key, xs[..n]);
      CountInsert(p, key, xs[n], Sort(key, xs[..n]));
    }
  }

  lemma {:induction false} InsertPermutes<T>(key: T -> real, x: T, s: seq<T>)
    ensures multiset(Insert(key, x, s)) == multiset(s) + multiset{x}
  {
    if s != [] {
      var n := |s| - 1;
      assert s == s[..n] + [s[n]];
      InsertPermutes(key, x, s[..n]);
    }
  }

  lemma SortPush<T>(key: T -> real, xs: seq<T>, x: T)
    ensures Sort(key, xs + [x]) == Insert(key, x, Sort(key, xs))
  {
    assert (xs + [x])[..|xs|] == xs;
  }

  /** Sorting permutes the entries. */
  lemma {:induction false} SortPermutes<T>(key: T -> real, xs: seq<T>)
    ensures multiset(Sort(key, xs)) == multiset(xs)
  {
    if xs != [] {
      hide Insert, Sort;
      var front, last := xs[..|xs| - 1], xs[|xs| - 1];
      assert xs == front + [last];
      SortPush(key, front, last);
      SortPermutes(key, front);
      InsertPermutes(key, last, Sort(key, front));
    }
  }

  lemma SortMembers<T>(key: T -> real, xs: seq<T>)
    ensures |Sort(key, xs)| == |xs|
    ensures forall x :: x in Sort(key, xs) <==> x in xs
  {
    SortPermutes(key, xs);
    assert |multiset(Sort(key, xs))| == |multiset(xs)|;
    forall x
      ensures x in Sort(key, xs) <==> x in xs
    {
      assert x in multiset(Sort(key, xs)) <==> x in multiset(xs);
    }
  }

  lemma InsertMember<T>(key: T -> real, x: T, s: seq<T>, y: T)
    requires y in Insert(key, x, s)
    ensures y in s || y == x
  {
    InsertPermutes(key, x, s);
    assert y in multiset(Insert(key, x, s));
    assert y in multiset(s) || y == x;
  }

  lemma {:induction false} InsertAscending<T>(key: T -> real, x: T, s: seq<T>)
    requires AscendingBy(key, s)
    ensures AscendingBy(key, Insert(key, x, s))
  {
    if s != [] && !(key(s[|s| - 1]) <= key(x)) {
      var n := |s| - 1;
      InsertAscending(key, x, s[..n]);
      var shorter := Insert(key, x, s[..n]);
      assert Insert(key, x, s) == shorter + [s[n]];
      forall i | 0 <= i < |shorter|
        ensures key(shorter[i]) <= key(s[n])
      {
        InsertMember(key, x, s[..n], shorter[i]);
      }
    }
  }

  lemma {:induction false} SortAscending<T>(key: T -> real, xs: seq<T>)
    ensures AscendingBy(key, Sort(key, xs))
  {
    if xs != [] {
      SortAscending(key, xs[..|xs| - 1]);
      InsertAscending(key, xs[|xs| - 1], Sort(key, xs[..|xs| - 1]));
    }
  }

  function WithKey<T>(key: T -> real, k: real): T -> bool {
    y => key(y) == k
  }

  lemma {:induction false} InsertIsStable<T(!new)>(key: T -> real, x: T, s: seq<T>, k: real)
    requires AscendingBy(key, s)
    ensures Filter(WithKey(key, k), Insert(key, x, s)) == Filter(WithKey(key, k), s + [x])
  {
    hide Filter;
    var p := WithKey(key, k);
    if s == [] {
      assert s + [x] == [x];
    } else if key(x) < key(s[|s| - 1]) {
      var n := |s| - 1;
      assert s == s[..n] + [s[n]];
      assert Insert(key, x, s) == Insert(key, x, s[..n]) + [s[n]];
      InsertIsStable(key, x, s[..n], k);
      FilterPush(p, Insert(key, x, s[..n]), s[n]);
      FilterPush(p, s[..n], x);
      FilterPush(p, s[..n], s[n]);
      FilterPush(p, s, x);
      if key(x) == k {
        assert !p(s[n]);
      }
    }
  }

  /** Entries with the same key keep their order. */
  lemma {:induction false} SortIsStable<T(!new)>(key: T -> real, xs: seq<T>, k: real)
    ensures Filter(WithKey(key, k), Sort(key, xs)) == Filter(WithKey(key, k), xs)
  {
    if xs != [] {
      hide Filter;
      var p := WithKey(key, k);
      var n := |xs| - 1;
      assert xs == xs[..n] + [xs[n]];
      SortIsStable(key, xs[..n], k);
      SortAscending(key, xs[..n]);
      InsertIsStable(key, xs[n], Sort(key, xs[..n]), k);
      FilterPush(p, Sort(key, xs[..n]), xs[n]);
      FilterPush(p, xs[..n], xs[n]);
    }
  }

  /** Entries lo..hi of an ascending sequence lie between the two. */
  lemma {:induction false} CountBetween(s: seq<real>, lo: nat, hi: nat, p: real -> bool)
    requires lo <= hi < |s| && forall i :: lo <= i <= hi ==> p(s[i])
    ensures Count(p, s) >= hi - lo + 1
  {
    var n := |s| - 1;
    if hi < n {
      CountBetween(s[..n], lo, hi, p);
    } else if lo < hi {
      CountBetween(s[..n], lo, hi - 1, p);
    }
  }
}

/** The ascending key sequence of a finite set of integers: the iteration order
    of the ordered maps. */
module Ordered {

  lemma Element<T>(s: set<T>) returns (x: T)
    requires s != {}
    ensures x in s
  {
    x :| x in s;
  }

  /** A part of a map that holds all of its keys, which are listed, is the map. */
  lemma SameMap<K(!new), V(!new)>(m: map<K, V>, m': map<K, V>, keys: seq<K>)
    requires forall i :: 0 <= i < |keys| && keys[i] in m' ==> keys[i] in m
    requires forall k :: k in m ==> k in m' && m[k] == m'[k]
    requires forall k :: k in m' ==> k in keys
    ensures m == m'
  {
    forall k | k in m'
      ensures k in m
    {
      var i :| 0 <= i < |keys| && keys[i] == k;
    }
  }

  lemma SameLookup<K(!new), V(!new)>(m: map<K, V>, m': map<K, V>)
    requires forall k :: k in m <==> k in m'
    requires forall k :: k in m && k in m' ==> m[k] == m'[k]
    ensures m == m'
  {
  }

  lemma FewerKeys<K(!new), V, W>(m: map<K, V>, m': map<K, W>)
    requires forall k :: k in m ==> k in m'
    ensures m.Keys <= m'.Keys && |m| <= |m'|
  {
    SmallerSet(m.Keys, m'.Keys);
    assert |m| == |m.Keys| && |m'| == |m'.Keys|;
  }

  lemma {:induction false} SmallerSet<T>(a: set<T>, b: set<T>)
    requires a <= b
    ensures |a| <= |b|
  {
    if a != {} {
      var x := Element(a);
      SmallerSet(a - {x}, b - {x});
    }
  }

  lemma {:induction false} MinExists(s: set<int>)
    requires s != {}
    ensures exists m :: m in s && forall x :: x in s ==> m <= x
  {
    var x := Element(s);
    if s != {x} {
      var rest := s - {x};
      assert s == rest + {x};
      MinExists(rest);
      var m :| m in rest && forall y :: y in rest ==> m <= y;
      if x < m {
        assert forall y :: y in s ==> y == x || y in rest;
      } else {
        assert m in s && forall y :: y in s ==> y == x || y in rest;
      }
    }
  }

  function Min(s: set<int>): (m: int)
    requires s != {}
    ensures m in s && forall x :: x in s ==> m <= x
  {
    MinExists(s);
    var m :| m in s && forall x :: x in s ==> m <= x;
    m
  }

  lemma {:induction false} MaxExists(s: set<int>)
    requires s != {}
    ensures exists m :: m in s && forall x :: x in s ==> x <= m
  {
    var x := Element(s);
    if s != {x} {
      var rest := s - {x};
      assert s == rest + {x};
      MaxExists(rest);
      var m :| m in rest && forall y :: y in rest ==> y <= m;
      if x > m {
        assert forall y :: y in s ==> y == x || y in rest;
      } else {
        assert m in s && forall y :: y in s ==> y == x || y in rest;
      }
    }
  }

  function Max(s: set<int>): (m: int)
    requires s != {}
    ensures m in s && forall x :: x in s ==> x <= m
  {
    MaxExists(s);
    var m :| m in s && forall x :: x in s ==> x <= m;
    m
  }

  ghost predicate StrictlyAscending(s: seq<int>) {
    forall i, j :: 0 <= i < j < |s| ==> s[i] < s[j]
  }

  /** The elements of s in ascending order. */
  function Ascending(s: set<int>): (r: seq<int>)
    ensures forall x :: x in r <==> x in s
    ensures StrictlyAscending(r)
    decreases s
  {
    if s == {} then []
    else
      var m := Min(s);
      var rest := Ascending(s - {m});
      assert s == {m} + (s - {m});
      Prepend(m, rest, s - {m})
  }

  function Prepend(m: int, rest: seq<int>, s: set<int>): (r: seq<int>)
    requires StrictlyAscending(rest)
    requires forall x :: x in rest <==> x in s
    requires forall x :: x in s ==> m < x
    ensures StrictlyAscending(r)
    ensures forall x :: x in r <==> x in {m} + s
  {
    assert forall i :: 0 <= i < |rest| ==> rest[i] in rest;
    [m] + rest
  }

  lemma KeysInMap<V>(m: map<int, V>)
    ensures forall i :: 0 <= i < |Ascending(m.Keys)| ==> Ascending(m.Keys)[i] in m
    ensures forall k :: k in Ascending(m.Keys) <==> k in m
  {
    var keys := Ascending(m.Keys);
    assert forall i :: 0 <= i < |keys| ==> keys[i] in keys;
  }
}

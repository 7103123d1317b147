/** What a ladder answers for an issue time depends only on the vintages issued
    before it. */
module LadderBlindness {
  import opened Common
  import opened Filtering
  import opened Ordered
  import opened Quarters
  import opened Vintages
  import opened Ladders

  lemma {:induction false} PickLastReadsAdmitted(vs: seq<Vintage>, bound: int, t: int)
    ensures PickLast(vs, bound, t) == PickLast(Filter(AdmittedBy(Some(bound)), vs), bound, t)
  {
    if vs != [] {
      var front, last := vs[..|vs| - 1], vs[|vs| - 1];
      PickLastReadsAdmitted(front, bound, t);
      var known := Filter(AdmittedBy(Some(bound)), front);
      assert (known + [last])[..|known|] == known;
    }
  }

  /** The newest vintage of a target in the ladder, if it has one. */
  ghost function Newest(l: Ladder, issued: int, t: int): Option<Issue> {
    if t in l.byTarget then NewestBefore(l.byTarget[t], issued) else None
  }

  lemma NewestOfVintages(l: Ladder, vs: seq<Vintage>, limit: int, issued: int, t: int)
    requires IsLadderOf(l, vs, limit) && issued <= limit
    ensures Newest(l, issued, t) == AsIssue(PickLast(vs, issued, t))
  {
    hide NewestBefore, SortByIssue;
    NewestIsPickLast(vs, limit, issued, t);
    if t !in l.byTarget {
      assert IssuesOf(vs, limit, t) == [];
      NewestOfEmpty(issued);
    }
  }

  /** Two ladders with the same vintages before an issue time have the same newest
      ones. */
  lemma NewestIsBlind(l: Ladder, vs: seq<Vintage>, limit: int, l': Ladder, vs': seq<Vintage>, limit': int, issued: int, t: int)
    requires IsLadderOf(l, vs, limit) && IsLadderOf(l', vs', limit') && issued <= limit && issued <= limit'
    requires Filter(AdmittedBy(Some(issued)), vs) == Filter(AdmittedBy(Some(issued)), vs')
    ensures Newest(l, issued, t) == Newest(l', issued, t)
  {
    NewestOfVintages(l, vs, limit, issued, t);
    NewestOfVintages(l', vs', limit', issued, t);
    PickLastReadsAdmitted(vs, issued, t);
    PickLastReadsAdmitted(vs', issued, t);
  }

  // --- Records in target order -----------------------------------------------------------------

  ghost predicate AscendingStarts(r: seq<GridRecord>) {
    forall i, j :: 0 <= i < j < |r| ==> r[i].start < r[j].start
  }

  lemma {:induction false} RecordsAscend(l: Ladder, issued: int, from: int, to: int, targets: seq<int>)
    requires forall i :: 0 <= i < |targets| ==> targets[i] in l.byTarget
    requires StrictlyAscending(targets)
    ensures AscendingStarts(RecordsAsOf(l, issued, from, to, targets))
    ensures forall r :: r in RecordsAsOf(l, issued, from, to, targets) ==> r.start in targets
  {
    if targets != [] {
      hide NewestBefore;
      var n := |targets| - 1;
      RecordsAscend(l, issued, from, to, targets[..n]);
      var before := RecordsAsOf(l, issued, from, to, targets[..n]);
      forall i | 0 <= i < |before|
        ensures before[i].start < targets[n]
      {
        assert before[i] in before;
        assert before[i].start in targets[..n];
      }
    }
  }

  lemma LastIsShared(r: seq<GridRecord>, s: seq<GridRecord>)
    requires AscendingStarts(r) && AscendingStarts(s) && r != [] && s != []
    requires r[|r| - 1] in s && s[|s| - 1] in r
    ensures r[|r| - 1] == s[|s| - 1]
  {
    var i :| 0 <= i < |s| && s[i] == r[|r| - 1];
    var j :| 0 <= j < |r| && r[j] == s[|s| - 1];
  }

  lemma {:induction false} SameRecords(r: seq<GridRecord>, s: seq<GridRecord>)
    requires AscendingStarts(r) && AscendingStarts(s)
    requires forall x :: x in r <==> x in s
    ensures r == s
  {
    assert |s| > 0 ==> s[0] in s;
    if r != [] {
      assert r[|r| - 1] in s && s[|s| - 1] in r;
      LastIsShared(r, s);
      var front, front', last := r[..|r| - 1], s[..|s| - 1], r[|r| - 1];
      assert AscendingStarts(front) && AscendingStarts(front');
      hide AscendingStarts;
      forall x
        ensures x in front <==> x in front'
      {
        FrontMembers(r, x);
        FrontMembers(s, x);
      }
      SameRecords(front, front');
      assert r == front + [last] && s == front' + [last];
    }
  }

  lemma FrontMembers(r: seq<GridRecord>, x: GridRecord)
    requires AscendingStarts(r) && r != []
    ensures x in r[..|r| - 1] <==> x in r && x != r[|r| - 1]
  {
    if x in r && x != r[|r| - 1] {
      var i :| 0 <= i < |r| && r[i] == x;
      assert r[..|r| - 1][i] == x;
    }
  }

  lemma RecordsAreBlind(l: Ladder, l': Ladder, issued: int, from: int, to: int)
    requires forall t :: Newest(l, issued, t) == Newest(l', issued, t)
    ensures RecordsAsOf(l, issued, from, to, Ascending(l.byTarget.Keys))
         == RecordsAsOf(l', issued, from, to, Ascending(l'.byTarget.Keys))
  {
    hide RecordsAsOf, Ascending, NewestBefore;
    var keys, keys' := Ascending(l.byTarget.Keys), Ascending(l'.byTarget.Keys);
    KeysInMap(l.byTarget);
    KeysInMap(l'.byTarget);
    var r, r' := RecordsAsOf(l, issued, from, to, keys), RecordsAsOf(l', issued, from, to, keys');
    RecordsAscend(l, issued, from, to, keys);
    RecordsAscend(l', issued, from, to, keys');
    forall x
      ensures x in r <==> x in r'
    {
      assert x == GridRecord(x.start, x.value);
      RecordsMembers(l, issued, from, to, keys, x.start, x.value);
      RecordsMembers(l', issued, from, to, keys', x.start, x.value);
      assert Newest(l, issued, x.start) == Newest(l', issued, x.start);
    }
    SameRecords(r, r');
  }

  // --- Issue times per quarter --------------------------------------------------------------------

  /** Target t reports the issue time x for quarter q. */
  ghost predicate Reports(l: Ladder, issued: int, from: int, to: int, t: int, q: int, x: int) {
    && from <= t < to && Floor(t) == q
    && Newest(l, issued, t).Some? && Newest(l, issued, t).value.issued == x
  }

  /** A quarter has the latest issue time that one of the targets reports for it. */
  lemma {:induction false} QuarterHasLatest(l: Ladder, issued: int, from: int, to: int, targets: seq<int>, q: int)
    requires forall i :: 0 <= i < |targets| ==> targets[i] in l.byTarget
    ensures var m := IssuedByQuarter(l, issued, from, to, targets);
      && (q in m ==> exists t :: t in targets && Reports(l, issued, from, to, t, q, m[q]))
      && (forall t, x :: t in targets && Reports(l, issued, from, to, t, q, x) ==> q in m && x <= m[q])
  {
    if targets != [] {
      hide NewestBefore, Floor;
      var n := |targets| - 1;
      QuarterHasLatest(l, issued, from, to, targets[..n], q);
      assert targets == targets[..n] + [targets[n]];
      var before, m := IssuedByQuarter(l, issued, from, to, targets[..n]), IssuedByQuarter(l, issued, from, to, targets);
      if q in m {
        if q in before && m[q] == before[q] {
          var t :| t in targets[..n] && Reports(l, issued, from, to, t, q, before[q]);
          assert t in targets && Reports(l, issued, from, to, t, q, m[q]);
        } else {
          assert Reports(l, issued, from, to, targets[n], q, m[q]);
        }
      }
    }
  }

  lemma QuartersAreBlind(l: Ladder, l': Ladder, issued: int, from: int, to: int)
    requires forall t :: Newest(l, issued, t) == Newest(l', issued, t)
    ensures IssuedByQuarter(l, issued, from, to, Ascending(l.byTarget.Keys))
         == IssuedByQuarter(l', issued, from, to, Ascending(l'.byTarget.Keys))
  {
    hide IssuedByQuarter, Ascending, NewestBefore, Floor;
    KeysInMap(l.byTarget);
    KeysInMap(l'.byTarget);
    var keys, keys' := Ascending(l.byTarget.Keys), Ascending(l'.byTarget.Keys);
    var m, m' := IssuedByQuarter(l, issued, from, to, keys), IssuedByQuarter(l', issued, from, to, keys');
    forall q: int
      ensures q in m ==> q in m' && m[q] <= m'[q]
      ensures q in m' ==> q in m && m'[q] <= m[q]
    {
      QuarterHasLatest(l, issued, from, to, keys, q);
      QuarterHasLatest(l', issued, from, to, keys', q);
      if q in m {
        var t :| t in keys && Reports(l, issued, from, to, t, q, m[q]);
        assert Newest(l, issued, t) == Newest(l', issued, t);
        assert t in keys' && Reports(l', issued, from, to, t, q, m[q]);
      }
      if q in m' {
        var t :| t in keys' && Reports(l', issued, from, to, t, q, m'[q]);
        assert Newest(l, issued, t) == Newest(l', issued, t);
        assert t in keys && Reports(l, issued, from, to, t, q, m'[q]);
      }
    }
    SameIntMap(m, m');
  }

  lemma SameIntMap<K(!new)>(m: map<K, int>, m': map<K, int>)
    requires forall q :: q in m ==> q in m' && m[q] <= m'[q]
    requires forall q :: q in m' ==> q in m && m'[q] <= m[q]
    ensures m == m'
  {
  }
}

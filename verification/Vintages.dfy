/** Forecast vintages and the freshest one per target: the linear selection of
    the backtest and the sorted ladder of issuance training. */
module Vintages {
  import opened Common
  import opened Filtering

  /** One archived issuance of a grid forecast value; times in UTC milliseconds. */
  datatype Vintage = Vintage(datasetId: int, issuedAt: int, start: int, end: int, value: real)

  /** Whether v is issued strictly before the bound; no bound admits every vintage. */
  predicate Admits(bound: Option<int>, v: Vintage) {
    bound.None? || v.issuedAt < bound.value
  }

  function AdmittedBy(bound: Option<int>): Vintage -> bool {
    (v: Vintage) => Admits(bound, v)
  }

  // --- The linear selection -----------------------------------------------------------

  /** Index i holds the vintage to use for its target: the newest admissible
      issue time, and the first such entry on a tie. */
  ghost predicate IsFreshest(vs: seq<Vintage>, bound: Option<int>, i: nat)
    requires i < |vs|
  {
    && Admits(bound, vs[i])
    && (forall j :: 0 <= j < |vs| && vs[j].start == vs[i].start && Admits(bound, vs[j]) ==>
          vs[j].issuedAt <= vs[i].issuedAt)
    && (forall j :: 0 <= j < i && vs[j].start == vs[i].start && Admits(bound, vs[j]) ==>
          vs[j].issuedAt < vs[i].issuedAt)
  }

  /** The freshest vintage of a target, the first one on a tie. */
  function Pick(vs: seq<Vintage>, bound: Option<int>, target: int): (r: Option<Vintage>)
    ensures r.Some? ==> r.value.start == target && Admits(bound, r.value)
  {
    if vs == [] then None
    else
      var n := |vs| - 1;
      var p := Pick(vs[..n], bound, target);
      if vs[n].start == target && Admits(bound, vs[n]) && (p.None? || vs[n].issuedAt > p.value.issuedAt)
      then Some(vs[n]) else p
  }

  /** The targets in the order of their first admissible vintage. */
  function Targets(vs: seq<Vintage>, bound: Option<int>): (r: seq<int>)
    ensures forall t :: t in r <==> Pick(vs, bound, t).Some?
    ensures forall i, j :: 0 <= i < j < |r| ==> r[i] != r[j]
  {
    if vs == [] then []
    else
      var n := |vs| - 1;
      var before := Targets(vs[..n], bound);
      if Admits(bound, vs[n]) && vs[n].start !in before then before + [vs[n].start] else before
  }

  /** One vintage per target. */
  function SelectedAsOf(vs: seq<Vintage>, bound: Option<int>): (r: seq<Vintage>)
    ensures |r| == |Targets(vs, bound)|
    ensures forall i :: 0 <= i < |r| ==> Pick(vs, bound, Targets(vs, bound)[i]) == Some(r[i])
  {
    var targets := Targets(vs, bound);
    seq(|targets|, i requires 0 <= i < |targets| =>
      assert targets[i] in targets;
      Pick(vs, bound, targets[i]).value)
  }

  lemma PickStep(front: seq<Vintage>, v: Vintage, bound: Option<int>, target: int)
    ensures var p := Pick(front, bound, target);
      Pick(front + [v], bound, target) ==
        if v.start == target && Admits(bound, v) && (p.None? || v.issuedAt > p.value.issuedAt) then Some(v) else p
  {
    assert (front + [v])[..|front|] == front;
  }

  lemma TargetsStep(front: seq<Vintage>, v: Vintage, bound: Option<int>)
    ensures var before := Targets(front, bound);
      Targets(front + [v], bound) == if Admits(bound, v) && v.start !in before then before + [v.start] else before
  {
    assert (front + [v])[..|front|] == front;
  }

  lemma SelectionSkips(front: seq<Vintage>, v: Vintage, bound: Option<int>)
    requires !Admits(bound, v)
    ensures SelectedAsOf(front + [v], bound) == SelectedAsOf(front, bound)
  {
    hide Pick, Targets;
    var targets := Targets(front, bound);
    TargetsStep(front, v, bound);
    forall i | 0 <= i < |targets|
      ensures SelectedAsOf(front + [v], bound)[i] == SelectedAsOf(front, bound)[i]
    {
      PickStep(front, v, bound, targets[i]);
    }
  }

  lemma SelectionUpdates(front: seq<Vintage>, v: Vintage, bound: Option<int>, at: nat)
    requires Admits(bound, v) && at < |Targets(front, bound)| && Targets(front, bound)[at] == v.start
    ensures var before := SelectedAsOf(front, bound);
      SelectedAsOf(front + [v], bound) == if v.issuedAt > before[at].issuedAt then before[at := v] else before
  {
    hide Pick, Targets;
    var targets, before := Targets(front, bound), SelectedAsOf(front, bound);
    assert targets[at] in targets;
    TargetsStep(front, v, bound);
    forall i | 0 <= i < |targets|
      ensures SelectedAsOf(front + [v], bound)[i] == if i == at && v.issuedAt > before[at].issuedAt then v else before[i]
    {
      PickStep(front, v, bound, targets[i]);
    }
  }

  lemma SelectionAppends(front: seq<Vintage>, v: Vintage, bound: Option<int>)
    requires Admits(bound, v) && v.start !in Targets(front, bound)
    ensures SelectedAsOf(front + [v], bound) == SelectedAsOf(front, bound) + [v]
  {
    hide Pick, Targets;
    var targets, before := Targets(front, bound), SelectedAsOf(front, bound);
    TargetsStep(front, v, bound);
    PickStep(front, v, bound, v.start);
    forall i | 0 <= i < |targets|
      ensures SelectedAsOf(front + [v], bound)[i] == before[i]
    {
      assert targets[i] in targets;
      PickStep(front, v, bound, targets[i]);
    }
  }

  /** Per target, the freshest admissible vintage, in one pass. */
  method SelectVintagesAsOf(vs: seq<Vintage>, bound: Option<int>) returns (selected: seq<Vintage>)
    ensures selected == SelectedAsOf(vs, bound)
  {
    hide Pick, Targets, SelectedAsOf;
    selected := [];
    var indexByTarget: map<int, nat> := map[];
    NothingSelected(bound);
    for n := 0 to |vs|
      invariant selected == SelectedAsOf(vs[..n], bound)
      invariant forall t :: t in indexByTarget <==> t in Targets(vs[..n], bound)
      invariant forall t :: t in indexByTarget ==>
        indexByTarget[t] < |selected| && Targets(vs[..n], bound)[indexByTarget[t]] == t
    {
      var v := vs[n];
      ghost var before := vs[..n];
      assert vs[..n + 1] == before + [v];
      TargetsStep(before, v, bound);
      if Admits(bound, v) {
        if v.start in indexByTarget {
          var i := indexByTarget[v.start];
          SelectionUpdates(before, v, bound, i);
          if v.issuedAt > selected[i].issuedAt {
            selected := selected[i := v];
          }
        } else {
          SelectionAppends(before, v, bound);
          indexByTarget := indexByTarget[v.start := |selected|];
          selected := selected + [v];
        }
      } else {
        SelectionSkips(before, v, bound);
      }
    }
    assert vs[..|vs|] == vs;
  }

  lemma NothingSelected(bound: Option<int>)
    ensures Targets([], bound) == [] && SelectedAsOf([], bound) == []
  {
  }

  /** The pick is the freshest admissible vintage, the first on a tie, and
      there is one exactly when the target has an admissible vintage. */
  lemma {:induction false} PickIsFreshest(vs: seq<Vintage>, bound: Option<int>, target: int)
    ensures Pick(vs, bound, target).Some? <==>
      exists v :: v in vs && v.start == target && Admits(bound, v)
    ensures Pick(vs, bound, target).Some? ==>
      exists i: nat :: i < |vs| && vs[i] == Pick(vs, bound, target).value && IsFreshest(vs, bound, i)
  {
    if vs != [] {
      var n := |vs| - 1;
      var p := Pick(vs[..n], bound, target);
      PickIsFreshest(vs[..n], bound, target);
      if Pick(vs, bound, target) != p {
        assert vs[n] in vs;
        assert forall j :: 0 <= j < n ==> vs[j] in vs[..n];
        if p.Some? {
          var i: nat :| i < n && vs[..n][i] == p.value && IsFreshest(vs[..n], bound, i);
          assert forall j :: 0 <= j < n && vs[j].start == target && Admits(bound, vs[j]) ==>
            vs[..n][j].issuedAt <= p.value.issuedAt;
        }
        assert IsFreshest(vs, bound, n);
      } else if p.Some? {
        var i: nat :| i < n && vs[..n][i] == p.value && IsFreshest(vs[..n], bound, i);
        assert forall j :: 0 <= j < n ==> vs[..n][j] == vs[j];
        assert vs[i] == p.value && IsFreshest(vs, bound, i);
      }
    }
  }

  /** Every selected vintage is the freshest of its target, and every target
      with an admissible vintage is selected once. */
  lemma SelectionIsFreshest(vs: seq<Vintage>, bound: Option<int>)
    ensures forall i, j :: 0 <= i < j < |SelectedAsOf(vs, bound)| ==>
      SelectedAsOf(vs, bound)[i].start != SelectedAsOf(vs, bound)[j].start
    ensures forall v :: v in vs && Admits(bound, v) ==> exists w :: w in SelectedAsOf(vs, bound) && w.start == v.start
    ensures forall v :: v in SelectedAsOf(vs, bound) ==> exists k: nat :: k < |vs| && vs[k] == v && IsFreshest(vs, bound, k)
  {
    var r, targets := SelectedAsOf(vs, bound), Targets(vs, bound);
    forall v | v in vs && Admits(bound, v)
      ensures exists w :: w in r && w.start == v.start
    {
      PickIsFreshest(vs, bound, v.start);
      assert v.start in targets;
      var i :| 0 <= i < |targets| && targets[i] == v.start;
      assert Pick(vs, bound, targets[i]) == Some(r[i]);
      assert r[i] in r;
    }
    forall v | v in r
      ensures exists k: nat :: k < |vs| && vs[k] == v && IsFreshest(vs, bound, k)
    {
      var i :| 0 <= i < |r| && r[i] == v;
      PickIsFreshest(vs, bound, targets[i]);
      assert Pick(vs, bound, targets[i]) == Some(v);
    }
    hide Pick, IsFreshest;
  }

  lemma {:induction false} PickReadsAdmitted(vs: seq<Vintage>, bound: Option<int>, t: int)
    ensures Pick(vs, bound, t) == Pick(Filter(AdmittedBy(bound), vs), bound, t)
  {
    if vs != [] {
      var front, last := vs[..|vs| - 1], vs[|vs| - 1];
      PickReadsAdmitted(front, bound, t);
      var known := Filter(AdmittedBy(bound), front);
      assert (known + [last])[..|known|] == known;
    }
  }

  lemma {:induction false} TargetsReadAdmitted(vs: seq<Vintage>, bound: Option<int>)
    ensures Targets(vs, bound) == Targets(Filter(AdmittedBy(bound), vs), bound)
  {
    if vs != [] {
      var front, last := vs[..|vs| - 1], vs[|vs| - 1];
      TargetsReadAdmitted(front, bound);
      var known := Filter(AdmittedBy(bound), front);
      assert (known + [last])[..|known|] == known;
    }
  }

  /** A bounded selection reads only the vintages that the bound admits. */
  lemma SelectionReadsAdmitted(vs: seq<Vintage>, bound: Option<int>)
    ensures SelectedAsOf(vs, bound) == SelectedAsOf(Filter(AdmittedBy(bound), vs), bound)
  {
    var known := Filter(AdmittedBy(bound), vs);
    TargetsReadAdmitted(vs, bound);
    var targets := Targets(vs, bound);
    forall i | 0 <= i < |targets|
      ensures SelectedAsOf(vs, bound)[i] == SelectedAsOf(known, bound)[i]
    {
      PickReadsAdmitted(vs, bound, targets[i]);
    }
  }
}

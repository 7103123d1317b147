/** The ladder of issuance training: the vintages of a dataset by target, each
    list sorted by issue time. */
module Ladders {
  import opened Common
  import opened Ordered
  import opened Quarters
  import opened Sorting
  import opened Vintages

  datatype Issue = Issue(issued: int, value: real)

  datatype GridRecord = GridRecord(start: int, value: real)

  datatype Ladder = Ladder(byTarget: map<int, seq<Issue>>)

  // --- Stable sort by issue time ---------------------------------------------------

  ghost predicate SortedByIssue(s: seq<Issue>) {
    forall i, j :: 0 <= i < j < |s| ==> s[i].issued <= s[j].issued
  }

  function IssueKey(x: Issue): real {
    x.issued as real
  }

  function SortByIssue(s: seq<Issue>): seq<Issue> {
    Sort(IssueKey, s)
  }

  lemma InsertSorted(s: seq<Issue>, x: Issue)
    requires SortedByIssue(s)
    ensures SortedByIssue(Insert(IssueKey, x, s))
  {
    AscendingIsSorted(s);
    InsertAscending(IssueKey, x, s);
    AscendingIsSorted(Insert(IssueKey, x, s));
  }

  lemma AscendingIsSorted(s: seq<Issue>)
    ensures AscendingBy(IssueKey, s) <==> SortedByIssue(s)
  {
    if AscendingBy(IssueKey, s) {
      forall i, j | 0 <= i < j < |s|
        ensures s[i].issued <= s[j].issued
      {
        assert IssueKey(s[i]) <= IssueKey(s[j]);
      }
    }
  }

  lemma SortIsSorted(s: seq<Issue>)
    ensures SortedByIssue(SortByIssue(s))
  {
    SortAscending(IssueKey, s);
    AscendingIsSorted(SortByIssue(s));
  }

  /** The number of leading entries issued before the bound. */
  function PartitionPoint(s: seq<Issue>, bound: int): (k: nat)
    ensures k <= |s|
    ensures forall i :: 0 <= i < k ==> s[i].issued < bound
    ensures k < |s| ==> s[k].issued >= bound
  {
    if s == [] || s[0].issued >= bound then 0 else 1 + PartitionPoint(s[1..], bound)
  }

  /** The newest entry issued before the bound. */
  function NewestBefore(s: seq<Issue>, bound: int): (r: Option<Issue>) {
    var known := PartitionPoint(s, bound);
    if known == 0 then None else Some(s[known - 1])
  }

  // --- The freshest vintage, last on a tie --------------------------------------------

  /** The freshest vintage of a target, the last one on a tie. */
  function PickLast(vs: seq<Vintage>, bound: int, target: int): (r: Option<Vintage>)
    ensures r.Some? ==> r.value.start == target && r.value.issuedAt < bound
  {
    if vs == [] then None
    else
      var n := |vs| - 1;
      var p := PickLast(vs[..n], bound, target);
      if vs[n].start == target && vs[n].issuedAt < bound && (p.None? || vs[n].issuedAt >= p.value.issuedAt)
      then Some(vs[n]) else p
  }

  /** The entries of one target issued before the limit, in input order. */
  function IssuesOf(vs: seq<Vintage>, limit: int, target: int): seq<Issue> {
    if vs == [] then []
    else
      var n := |vs| - 1;
      var before := IssuesOf(vs[..n], limit, target);
      if vs[n].start == target && vs[n].issuedAt < limit
      then before + [Issue(vs[n].issuedAt, vs[n].value)] else before
  }

  function IssueOf(v: Vintage): Issue {
    Issue(v.issuedAt, v.value)
  }

  lemma {:induction false} PointOfAll(s: seq<Issue>, bound: int)
    requires forall i :: 0 <= i < |s| ==> s[i].issued < bound
    ensures PartitionPoint(s, bound) == |s|
  {
    if s != [] {
      PointOfAll(s[1..], bound);
    }
  }

  lemma NewestOfAppend(s: seq<Issue>, x: Issue, bound: int)
    requires SortedByIssue(s)
    requires s == [] || s[|s| - 1].issued <= x.issued
    ensures NewestBefore(s + [x], bound) == if x.issued < bound then Some(x) else NewestBefore(s, bound)
  {
    PointOfAppend(s, x, bound);
    if x.issued < bound {
      PointOfAll(s, bound);
    }
  }

  lemma {:induction false} PointOfAppend(s: seq<Issue>, x: Issue, bound: int)
    ensures PartitionPoint(s + [x], bound) ==
      if PartitionPoint(s, bound) == |s| && x.issued < bound then |s| + 1 else PartitionPoint(s, bound)
  {
    if s != [] && s[0].issued < bound {
      assert (s + [x])[1..] == s[1..] + [x];
      PointOfAppend(s[1..], x, bound);
    }
  }

  lemma NewestIsMember(s: seq<Issue>, bound: int)
    ensures NewestBefore(s, bound).Some? ==> NewestBefore(s, bound).value in s && NewestBefore(s, bound).value.issued < bound
  {
  }

  /** The newer of p and x, if x is in time; x on a tie. */
  function Newer(p: Option<Issue>, x: Issue, bound: int): Option<Issue> {
    if x.issued < bound && (p.None? || x.issued >= p.value.issued) then Some(x) else p
  }

  /** Inserting a new entry changes the newest one exactly when the entry is in
      time and not older than it. */
  lemma {:induction false} NewestOfInsert(s: seq<Issue>, x: Issue, bound: int)
    requires SortedByIssue(s)
    ensures NewestBefore(Insert(IssueKey, x, s), bound) == Newer(NewestBefore(s, bound), x, bound)
  {
    hide NewestBefore, Insert, SortedByIssue;
    InsertStep(s, x);
    if s == [] || s[|s| - 1].issued <= x.issued {
      NewestIsMember(s, bound);
      NewestOfAppend(s, x, bound);
      NothingNewer(s, x, bound);
    } else {
      var front, last := s[..|s| - 1], s[|s| - 1];
      assert s == front + [last];
      SortedFront(s);
      NewestOfInsert(front, x, bound);
      InsertSorted(front, x);
      InsertBelow(front, x, last);
      NewestOfAppend(front, last, bound);
      NewestOfAppend(Insert(IssueKey, x, front), last, bound);
    }
  }

  lemma SortedFront(s: seq<Issue>)
    requires SortedByIssue(s) && s != []
    ensures SortedByIssue(s[..|s| - 1])
    ensures |s| > 1 ==> s[..|s| - 1][|s| - 2].issued <= s[|s| - 1].issued
  {
  }

  lemma NothingNewer(s: seq<Issue>, x: Issue, bound: int)
    requires SortedByIssue(s) && (s == [] || s[|s| - 1].issued <= x.issued)
    ensures NewestBefore(s, bound).Some? ==> NewestBefore(s, bound).value.issued <= x.issued
  {
  }

  lemma InsertStep(s: seq<Issue>, x: Issue)
    ensures Insert(IssueKey, x, s) ==
      if s == [] || s[|s| - 1].issued <= x.issued then s + [x] else Insert(IssueKey, x, s[..|s| - 1]) + [s[|s| - 1]]
  {
    if s == [] {
      assert s + [x] == [x];
    }
  }

  lemma {:induction false} InsertBelow(s: seq<Issue>, x: Issue, top: Issue)
    requires SortedByIssue(s)
    requires s == [] || s[|s| - 1].issued <= top.issued
    requires x.issued <= top.issued
    ensures Insert(IssueKey, x, s) != [] && Insert(IssueKey, x, s)[|Insert(IssueKey, x, s)| - 1].issued <= top.issued
  {
  }

  /** The newest entry of the sorted list is the last freshest vintage. */
  lemma {:induction false} NewestIsPickLast(vs: seq<Vintage>, limit: int, bound: int, target: int)
    requires bound <= limit
    ensures NewestBefore(SortByIssue(IssuesOf(vs, limit, target)), bound) ==
      AsIssue(PickLast(vs, bound, target))
  {
    hide NewestBefore;
    hide SortByIssue;
    if vs == [] {
      NewestOfEmpty(bound);
    } else {
      var front, last := vs[..|vs| - 1], vs[|vs| - 1];
      NewestIsPickLast(front, limit, bound, target);
      var before := IssuesOf(front, limit, target);
      if last.start == target && last.issuedAt < limit {
        NewestOfPush(before, IssueOf(last), bound);
      }
    }
  }

  function AsIssue(p: Option<Vintage>): Option<Issue> {
    if p.None? then None else Some(IssueOf(p.value))
  }

  lemma NewestOfPush(list: seq<Issue>, x: Issue, bound: int)
    ensures NewestBefore(SortByIssue(list + [x]), bound) == Newer(NewestBefore(SortByIssue(list), bound), x, bound)
  {
    hide NewestBefore;
    assert (list + [x])[..|list|] == list;
    SortIsSorted(list);
    NewestOfInsert(SortByIssue(list), x, bound);
  }

  lemma NewestOfEmpty(bound: int)
    ensures NewestBefore(SortByIssue([]), bound) == None
  {
  }

  // --- Ties ------------------------------------------------------------------------------

  /** Index i holds a vintage of the target in time, and none in time is newer. */
  ghost predicate IsNewest(vs: seq<Vintage>, bound: int, target: int, i: int) {
    && 0 <= i < |vs| && vs[i].start == target && vs[i].issuedAt < bound
    && forall j :: 0 <= j < |vs| && vs[j].start == target && vs[j].issuedAt < bound ==> vs[j].issuedAt <= vs[i].issuedAt
  }

  /** The newest issue time of the target in time occurs once. */
  ghost predicate NewestOnce(vs: seq<Vintage>, bound: int, target: int) {
    forall i, j :: IsNewest(vs, bound, target, i) && IsNewest(vs, bound, target, j) ==> i == j
  }

  /** The linear selection takes the first of the newest vintages. */
  lemma PickIsFirstNewest(vs: seq<Vintage>, bound: int, target: int) returns (i: nat)
    requires Pick(vs, Some(bound), target).Some?
    ensures IsNewest(vs, bound, target, i) && vs[i] == Pick(vs, Some(bound), target).value
    ensures forall k :: IsNewest(vs, bound, target, k) ==> i <= k
  {
    PickIsFreshest(vs, Some(bound), target);
    i :| i < |vs| && vs[i] == Pick(vs, Some(bound), target).value && IsFreshest(vs, Some(bound), i);
  }

  /** The ladder takes the last of them. */
  lemma {:induction false} PickLastIsLastNewest(vs: seq<Vintage>, bound: int, target: int) returns (i: nat)
    requires PickLast(vs, bound, target).Some?
    ensures IsNewest(vs, bound, target, i) && vs[i] == PickLast(vs, bound, target).value
    ensures forall k :: IsNewest(vs, bound, target, k) ==> k <= i
  {
    var n := |vs| - 1;
    var front := vs[..n];
    var p := PickLast(front, bound, target);
    if p.None? {
      NothingInTime(front, bound, target);
      i := n;
    } else {
      var before := PickLastIsLastNewest(front, bound, target);
      if vs[n].start == target && p.value.issuedAt <= vs[n].issuedAt < bound {
        i := n;
      } else {
        i := before;
        forall k | IsNewest(vs, bound, target, k)
          ensures k <= i
        {
          assert vs[i].issuedAt <= vs[k].issuedAt;
          assert IsNewest(front, bound, target, k);
        }
      }
    }
  }

  lemma {:induction false} NothingInTime(vs: seq<Vintage>, bound: int, target: int)
    requires PickLast(vs, bound, target).None?
    ensures forall j :: 0 <= j < |vs| ==> !(vs[j].start == target && vs[j].issuedAt < bound)
  {
    if vs != [] {
      NothingInTime(vs[..|vs| - 1], bound, target);
    }
  }

  lemma {:induction false} BothPick(vs: seq<Vintage>, bound: int, target: int)
    ensures Pick(vs, Some(bound), target).Some? == PickLast(vs, bound, target).Some?
  {
    if vs != [] {
      BothPick(vs[..|vs| - 1], bound, target);
    }
  }

  /** When the newest issue time occurs once, both rules take its vintage. */
  lemma PicksAgree(vs: seq<Vintage>, bound: int, target: int)
    requires NewestOnce(vs, bound, target)
    ensures PickLast(vs, bound, target) == Pick(vs, Some(bound), target)
  {
    hide Pick, PickLast, IsNewest;
    BothPick(vs, bound, target);
    if Pick(vs, Some(bound), target).Some? {
      var i := PickIsFirstNewest(vs, bound, target);
      var j := PickLastIsLastNewest(vs, bound, target);
    }
  }

  /** When it occurs more often, the linear selection takes an earlier entry of
      the input and the ladder a later one. */
  lemma TiesDisagree(vs: seq<Vintage>, bound: int, target: int) returns (first: nat, last: nat)
    requires !NewestOnce(vs, bound, target)
    ensures first < last && IsNewest(vs, bound, target, first) && IsNewest(vs, bound, target, last)
    ensures Pick(vs, Some(bound), target) == Some(vs[first])
    ensures PickLast(vs, bound, target) == Some(vs[last])
  {
    hide PickLast;
    var i, j :| IsNewest(vs, bound, target, i) && IsNewest(vs, bound, target, j) && i != j;
    PickIsFreshest(vs, Some(bound), target);
    assert vs[i] in vs;
    hide Pick;
    BothPick(vs, bound, target);
    first := PickIsFirstNewest(vs, bound, target);
    last := PickLastIsLastNewest(vs, bound, target);
  }

  // --- The ladder ----------------------------------------------------------------------

  /** The ladder that the vintages before the limit give. */
  ghost predicate IsLadderOf(l: Ladder, vs: seq<Vintage>, limit: int) {
    && (forall t :: t in l.byTarget <==> IssuesOf(vs, limit, t) != [])
    && (forall t :: t in l.byTarget ==> l.byTarget[t] == SortByIssue(IssuesOf(vs, limit, t)))
  }

  ghost function LadderOf(vs: seq<Vintage>, limit: int): Ladder {
    var targets := set v | v in vs && IssuesOf(vs, limit, v.start) != [] :: v.start;
    Ladder(map t | t in targets :: SortByIssue(IssuesOf(vs, limit, t)))
  }

  lemma {:induction false} IssuesHaveVintage(vs: seq<Vintage>, limit: int, t: int)
    requires IssuesOf(vs, limit, t) != []
    ensures exists v :: v in vs && v.start == t
  {
    var n := |vs| - 1;
    if vs[n].start == t {
      assert vs[n] in vs;
    } else {
      IssuesHaveVintage(vs[..n], limit, t);
      var v :| v in vs[..n] && v.start == t;
      assert v in vs;
    }
  }

  lemma LadderIsWhole(l: Ladder, vs: seq<Vintage>, limit: int)
    ensures IsLadderOf(LadderOf(vs, limit), vs, limit)
    ensures IsLadderOf(l, vs, limit) ==> l == LadderOf(vs, limit)
  {
    hide SortByIssue, IssuesOf;
    var whole := LadderOf(vs, limit);
    forall t: int
      ensures t in whole.byTarget <==> IssuesOf(vs, limit, t) != []
    {
      if IssuesOf(vs, limit, t) != [] {
        IssuesHaveVintage(vs, limit, t);
      }
    }
    if IsLadderOf(l, vs, limit) {
      forall t: int
        ensures t in l.byTarget <==> t in whole.byTarget
        ensures t in l.byTarget && t in whole.byTarget ==> l.byTarget[t] == whole.byTarget[t]
      {
      }
      SameLookup(l.byTarget, whole.byTarget);
    }
  }

  method NewLadder(vs: seq<Vintage>, limit: int) returns (l: Ladder)
    ensures IsLadderOf(l, vs, limit)
  {
    var byTarget: map<int, seq<Issue>> := map[];
    for n := 0 to |vs|
      invariant forall t :: t in byTarget <==> IssuesOf(vs[..n], limit, t) != []
      invariant forall t :: t in byTarget ==> byTarget[t] == IssuesOf(vs[..n], limit, t)
    {
      var v := vs[n];
      assert vs[..n + 1][..n] == vs[..n];
      if v.issuedAt < limit {
        var list := if v.start in byTarget then byTarget[v.start] else [];
        assert list == IssuesOf(vs[..n], limit, v.start);
        byTarget := byTarget[v.start := list + [Issue(v.issuedAt, v.value)]];
      }
    }
    assert vs[..|vs|] == vs;
    l := Ladder(map t | t in byTarget :: SortByIssue(byTarget[t]));
  }

  /** The records of the first n targets that lie in [from, to) and have a
      vintage issued before `issued`. */
  ghost function RecordsAsOf(l: Ladder, issued: int, from: int, to: int, targets: seq<int>): seq<GridRecord>
    requires forall i :: 0 <= i < |targets| ==> targets[i] in l.byTarget
  {
    if targets == [] then []
    else
      var n := |targets| - 1;
      var before := RecordsAsOf(l, issued, from, to, targets[..n]);
      var newest := NewestBefore(l.byTarget[targets[n]], issued);
      if from <= targets[n] < to && newest.Some?
      then before + [GridRecord(targets[n], newest.value.value)] else before
  }

  /** The newest issue time per quarter of the same records. */
  ghost function IssuedByQuarter(l: Ladder, issued: int, from: int, to: int, targets: seq<int>): map<int, int>
    requires forall i :: 0 <= i < |targets| ==> targets[i] in l.byTarget
  {
    if targets == [] then map[]
    else
      var n := |targets| - 1;
      var before := IssuedByQuarter(l, issued, from, to, targets[..n]);
      var newest := NewestBefore(l.byTarget[targets[n]], issued);
      var q := Floor(targets[n]);
      if from <= targets[n] < to && newest.Some? && (q !in before || newest.value.issued > before[q])
      then before[q := newest.value.issued] else before
  }

  /** The newest known vintage of every target in [from, to), in target order,
      and the latest of their issue times in each quarter. */
  method AsOf(l: Ladder, issued: int, from: int, to: int)
    returns (records: seq<GridRecord>, issuedByQuarter: map<int, int>)
    ensures records == RecordsAsOf(l, issued, from, to, Ascending(l.byTarget.Keys))
    ensures issuedByQuarter == IssuedByQuarter(l, issued, from, to, Ascending(l.byTarget.Keys))
  {
    hide Ascending;
    hide PartitionPoint;
    records, issuedByQuarter := [], map[];
    var targets := Ascending(l.byTarget.Keys);
    assert forall i :: 0 <= i < |targets| ==> targets[i] in targets;
    for n := 0 to |targets|
      invariant records == RecordsAsOf(l, issued, from, to, targets[..n])
      invariant issuedByQuarter == IssuedByQuarter(l, issued, from, to, targets[..n])
    {
      assert targets[..n + 1][..n] == targets[..n];
      if from <= targets[n] < to {
        var list := l.byTarget[targets[n]];
        var known := PartitionPoint(list, issued);
        if known > 0 {
          var newest := list[known - 1];
          records := records + [GridRecord(targets[n], newest.value)];
          var q := Floor(targets[n]);
          if q !in issuedByQuarter || newest.issued > issuedByQuarter[q] {
            issuedByQuarter := issuedByQuarter[q := newest.issued];
          }
        }
      }
    }
    assert targets[..|targets|] == targets;
  }

  /** Every issue time that a quarter reports lies before the bound. */
  lemma {:induction false} ReportedIssuesAreInTime(l: Ladder, issued: int, from: int, to: int, targets: seq<int>)
    requires forall i :: 0 <= i < |targets| ==> targets[i] in l.byTarget
    ensures forall q :: q in IssuedByQuarter(l, issued, from, to, targets) ==>
      IssuedByQuarter(l, issued, from, to, targets)[q] < issued
  {
    if targets != [] {
      hide NewestBefore;
      hide Floor;
      var n := |targets| - 1;
      ReportedIssuesAreInTime(l, issued, from, to, targets[..n]);
      NewestIsMember(l.byTarget[targets[n]], issued);
    }
  }

  lemma {:induction false} RecordsMembers(l: Ladder, issued: int, from: int, to: int, targets: seq<int>, t: int, value: real)
    requires forall i :: 0 <= i < |targets| ==> targets[i] in l.byTarget
    ensures GridRecord(t, value) in RecordsAsOf(l, issued, from, to, targets) <==>
      && from <= t < to && t in targets
      && NewestBefore(l.byTarget[t], issued).Some?
      && NewestBefore(l.byTarget[t], issued).value.value == value
  {
    if targets != [] {
      RecordsMembers(l, issued, from, to, targets[..|targets| - 1], t, value);
    }
  }

  /** The ladder gives exactly the last freshest vintage of each target in the window. */
  lemma LadderIsFreshest(l: Ladder, vs: seq<Vintage>, limit: int, issued: int, from: int, to: int, t: int, value: real)
    requires IsLadderOf(l, vs, limit) && issued <= limit
    ensures GridRecord(t, value) in RecordsAsOf(l, issued, from, to, Ascending(l.byTarget.Keys)) <==>
      && from <= t < to
      && PickLast(vs, issued, t).Some?
      && PickLast(vs, issued, t).value.value == value
  {
    RecordsMembers(l, issued, from, to, Ascending(l.byTarget.Keys), t, value);
    NewestIsPickLast(vs, limit, issued, t);
  }

  /** In the window, the ladder and the linear selection give the same value for
      the target, or neither has one; the ladder has none outside. */
  ghost predicate SameRecord(l: Ladder, vs: seq<Vintage>, issued: int, from: int, to: int, t: int) {
    forall value ::
      GridRecord(t, value) in RecordsAsOf(l, issued, from, to, Ascending(l.byTarget.Keys)) <==>
      from <= t < to && exists v :: v in SelectedAsOf(vs, Some(issued)) && v.start == t && v.value == value
  }

  lemma SelectionIsPick(vs: seq<Vintage>, issued: int, t: int, value: real)
    ensures (exists v :: v in SelectedAsOf(vs, Some(issued)) && v.start == t && v.value == value) <==>
      Pick(vs, Some(issued), t).Some? && Pick(vs, Some(issued), t).value.value == value
  {
    var selected, targets := SelectedAsOf(vs, Some(issued)), Targets(vs, Some(issued));
    if Pick(vs, Some(issued), t).Some? {
      assert t in targets;
      var i :| 0 <= i < |targets| && targets[i] == t;
      assert selected[i] in selected && selected[i] == Pick(vs, Some(issued), t).value;
    }
    forall v | v in selected && v.start == t
      ensures Pick(vs, Some(issued), t) == Some(v)
    {
      var i :| 0 <= i < |selected| && selected[i] == v;
      assert Pick(vs, Some(issued), targets[i]) == Some(v);
    }
  }

  /** A target has the same record by both rules exactly when it lies outside the
      window or both pick the same value. */
  lemma RecordOfPicks(l: Ladder, vs: seq<Vintage>, limit: int, issued: int, from: int, to: int, t: int)
    requires IsLadderOf(l, vs, limit) && issued <= limit
    ensures var p, q := Pick(vs, Some(issued), t), PickLast(vs, issued, t);
      SameRecord(l, vs, issued, from, to, t) <==> (from <= t < to && p.Some? ==> q.Some? && p.value.value == q.value.value)
  {
    hide RecordsAsOf, Ascending, SelectedAsOf, Pick, PickLast, IsLadderOf;
    var p, q := Pick(vs, Some(issued), t), PickLast(vs, issued, t);
    BothPick(vs, issued, t);
    forall value: real
      ensures GridRecord(t, value) in RecordsAsOf(l, issued, from, to, Ascending(l.byTarget.Keys)) <==>
        from <= t < to && q.Some? && q.value.value == value
      ensures (exists v :: v in SelectedAsOf(vs, Some(issued)) && v.start == t && v.value == value) <==>
        p.Some? && p.value.value == value
    {
      LadderIsFreshest(l, vs, limit, issued, from, to, t, value);
      SelectionIsPick(vs, issued, t, value);
    }
    if from <= t < to && p.Some? && SameRecord(l, vs, issued, from, to, t) {
      assert GridRecord(t, q.value.value) in RecordsAsOf(l, issued, from, to, Ascending(l.byTarget.Keys));
    }
  }

  /** When the newest issue time of a target occurs once, the ladder and the
      linear selection give the same record for it. */
  lemma LadderAgreesWithSelection(l: Ladder, vs: seq<Vintage>, limit: int, issued: int, from: int, to: int, t: int)
    requires IsLadderOf(l, vs, limit) && issued <= limit
    requires NewestOnce(vs, issued, t)
    ensures SameRecord(l, vs, issued, from, to, t)
  {
    hide RecordsAsOf, Ascending, SelectedAsOf, Pick, PickLast, IsLadderOf, SameRecord, NewestOnce;
    PicksAgree(vs, issued, t);
    RecordOfPicks(l, vs, limit, issued, from, to, t);
  }

  /** The same vintages at any values. */
  ghost predicate SameTimes(vs: seq<Vintage>, ws: seq<Vintage>) {
    |vs| == |ws| && forall i :: 0 <= i < |vs| ==> ws[i] == vs[i].(value := ws[i].value)
  }

  lemma TimesDecideNewest(vs: seq<Vintage>, ws: seq<Vintage>, bound: int, t: int)
    requires SameTimes(vs, ws)
    ensures NewestOnce(vs, bound, t) <==> NewestOnce(ws, bound, t)
  {
    assert forall i :: 0 <= i < |vs| ==> vs[i].start == ws[i].start && vs[i].issuedAt == ws[i].issuedAt;
    assert forall i :: IsNewest(vs, bound, t, i) <==> IsNewest(ws, bound, t, i);
  }

  /** The vintages with their position as the value. */
  function Numbered(vs: seq<Vintage>): seq<Vintage> {
    seq(|vs|, i requires 0 <= i < |vs| => vs[i].(value := i as real))
  }

  /** For fixed targets and issue times, the ladder and the linear selection give
      the same record of a target at all values exactly when its newest issue
      time before the bound occurs once. */
  lemma LadderAgreesExactly(vs: seq<Vintage>, limit: int, issued: int, from: int, to: int, t: int)
    requires issued <= limit && from <= t < to
    ensures NewestOnce(vs, issued, t) <==>
      forall ws: seq<Vintage>, l: Ladder ::
        SameTimes(vs, ws) && IsLadderOf(l, ws, limit) ==> SameRecord(l, ws, issued, from, to, t)
  {
    hide RecordsAsOf, Ascending, SelectedAsOf, Pick, PickLast, IsLadderOf, SameRecord, NewestOnce;
    if NewestOnce(vs, issued, t) {
      forall ws: seq<Vintage>, l: Ladder | SameTimes(vs, ws) && IsLadderOf(l, ws, limit)
        ensures SameRecord(l, ws, issued, from, to, t)
      {
        TimesDecideNewest(vs, ws, issued, t);
        LadderAgreesWithSelection(l, ws, limit, issued, from, to, t);
      }
    } else {
      var ws := Numbered(vs);
      var l := LadderOf(ws, limit);
      LadderIsWhole(l, ws, limit);
      TimesDecideNewest(vs, ws, issued, t);
      var first, last := TiesDisagree(ws, issued, t);
      RecordOfPicks(l, ws, limit, issued, from, to, t);
    }
  }

  /** The smallest case: two vintages of one target and one issue time. */
  lemma TwoOnATie(first: Vintage, last: Vintage, bound: int)
    requires first.start == last.start && first.issuedAt == last.issuedAt < bound
    ensures Pick([first, last], Some(bound), first.start) == Some(first)
    ensures PickLast([first, last], bound, first.start) == Some(last)
  {
    var vs := [first, last];
    assert IsNewest(vs, bound, first.start, 0) && IsNewest(vs, bound, first.start, 1);
    var i, j := TiesDisagree(vs, bound, first.start);
  }
}

/**
Comparing two snapshots, sorting the result, and the checks a persisted case makes of it
(src/name_atlas/cases.py).
*/
module SnapshotCompare {
  import opened Common
  import opened SnapshotDiff

  datatype CompareError = InvalidSnapshot | RoleOrKindChanged(path: string) | InvalidDifference(path: string)

  /** Members sorted by path, each path once; the commitment is taken as computed from the members. */
  predicate ValidSnapshot(members: seq<Member>) {
    && members != []
    && members[0].path != ""
    && forall i :: 0 <= i < |members| - 1 ==> Less(members[i].path, members[i + 1].path)
  }

  function ByPath(members: seq<Member>): Inventory {
    if members == [] then map[]
    else
      var last := members[|members| - 1];
      ByPath(members[..|members| - 1])[last.path := last]
  }

  lemma {:induction false} PathsIncrease(members: seq<Member>, i: nat, j: nat)
    requires ValidSnapshot(members) && i < j < |members|
    ensures Less(members[i].path, members[j].path)
    decreases j
  {
    if i + 1 < j {
      PathsIncrease(members, i, j - 1);
      LessTransitive(members[i].path, members[j - 1].path, members[j].path);
    }
  }

  lemma EarlierPathsDiffer(members: seq<Member>, n: nat)
    requires ValidSnapshot(members) && n < |members|
    ensures forall i :: 0 <= i < n ==> members[i].path != members[n].path
    ensures members[n].path != ""
  {
    forall i | 0 <= i < n ensures members[i].path != members[n].path {
      PathsIncrease(members, i, n);
      LessAsymmetric(members[i].path, members[n].path);
    }
    if n > 0 {
      PathsIncrease(members, 0, n);
    }
  }

  lemma ByPathStep(members: seq<Member>, n: nat)
    requires n < |members|
    ensures ByPath(members[..n + 1]) == ByPath(members[..n])[members[n].path := members[n]]
  {
    assert members[..n + 1][..n] == members[..n];
  }

  /** The inventory holds exactly the first n members, each under its path. */
  ghost predicate Indexes(a: Inventory, members: seq<Member>, n: nat)
    requires n <= |members|
  {
    && Keyed(a)
    && (forall p :: p in a <==> exists i :: 0 <= i < n && members[i].path == p)
    && (forall i :: 0 <= i < n ==> members[i].path in a && a[members[i].path] == members[i])
  }

  lemma IndexesStep(a: Inventory, members: seq<Member>, n: nat)
    requires ValidSnapshot(members) && n < |members| && Indexes(a, members, n)
    ensures Indexes(a[members[n].path := members[n]], members, n + 1)
  {
    EarlierPathsDiffer(members, n);
  }

  lemma {:induction false} ByPathAt(members: seq<Member>, n: nat)
    requires ValidSnapshot(members) && n <= |members|
    ensures Indexes(ByPath(members[..n]), members, n)
  {
    if n > 0 {
      ByPathAt(members, n - 1);
      ByPathStep(members, n - 1);
      IndexesStep(ByPath(members[..n - 1]), members, n - 1);
    }
  }

  lemma ByPathMeaning(members: seq<Member>)
    requires ValidSnapshot(members)
    ensures Keyed(ByPath(members))
    ensures forall p :: p in ByPath(members) <==> exists i :: 0 <= i < |members| && members[i].path == p
    ensures forall i :: 0 <= i < |members| ==>
      members[i].path in ByPath(members) && ByPath(members)[members[i].path] == members[i]
    ensures forall i, j :: 0 <= i < j < |members| ==> members[i].path != members[j].path
  {
    ByPathAt(members, |members|);
    assert members[..|members|] == members;
    forall i, j | 0 <= i < j < |members| ensures members[i].path != members[j].path {
      PathsIncrease(members, i, j);
      LessAsymmetric(members[i].path, members[j].path);
    }
  }

  // ----- sorting -----

  function Insert(d: Difference, ds: seq<Difference>): seq<Difference> {
    if ds == [] || KeyLess(d, ds[0]) then [d] + ds else [ds[0]] + Insert(d, ds[1..])
  }

  /** The library's stable sort by key. */
  function Sorted(ds: seq<Difference>): seq<Difference> {
    if ds == [] then [] else Insert(ds[|ds| - 1], Sorted(ds[..|ds| - 1]))
  }

  lemma {:induction false} InsertKeeps(d: Difference, ds: seq<Difference>)
    ensures multiset(Insert(d, ds)) == multiset(ds) + multiset{d}
  {
    if ds == [] || KeyLess(d, ds[0]) {
    } else {
      InsertKeeps(d, ds[1..]);
      assert ds == [ds[0]] + ds[1..];
    }
  }

  /** Sorting only reorders. */
  lemma {:induction false} SortedKeeps(ds: seq<Difference>)
    ensures multiset(Sorted(ds)) == multiset(ds)
  {
    if ds != [] {
      SortedKeeps(ds[..|ds| - 1]);
      InsertKeeps(ds[|ds| - 1], Sorted(ds[..|ds| - 1]));
      assert ds == ds[..|ds| - 1] + [ds[|ds| - 1]];
    }
  }

  ghost predicate HeadsDiffer(ds: seq<Difference>) {
    forall i, j :: 0 <= i < j < |ds| ==> Head(ds[i]) != Head(ds[j])
  }

  lemma {:induction false} InsertInOrder(d: Difference, ds: seq<Difference>)
    requires InOrder(ds) && forall i :: 0 <= i < |ds| ==> Head(ds[i]) != Head(d)
    ensures InOrder(Insert(d, ds))
  {
    var t := Insert(d, ds);
    if ds == [] {
    } else if KeyLess(d, ds[0]) {
      forall i | 0 <= i < |ds| ensures Less(Head(d), Head(ds[i])) {
        if i > 0 {
          LessTransitive(Head(d), Head(ds[0]), Head(ds[i]));
        }
      }
    } else {
      LessTotal(Head(d), Head(ds[0]));
      InsertInOrder(d, ds[1..]);
      InsertKeeps(d, ds[1..]);
      forall e | e in Insert(d, ds[1..]) ensures Less(Head(ds[0]), Head(e)) {
        assert e in multiset(Insert(d, ds[1..]));
        assert e == d || e in ds[1..];
      }
    }
  }

  lemma SubsequenceHeads(ds: seq<Difference>, n: nat)
    requires n <= |ds| && HeadsDiffer(ds)
    ensures HeadsDiffer(ds[..n])
  {
  }

  /** When first keys differ the whole order is decided by them. */
  lemma {:induction false} SortedInOrder(ds: seq<Difference>)
    requires HeadsDiffer(ds)
    ensures InOrder(Sorted(ds))
  {
    if ds != [] {
      var n := |ds| - 1;
      SubsequenceHeads(ds, n);
      SortedInOrder(ds[..n]);
      SortedKeeps(ds[..n]);
      forall i | 0 <= i < |Sorted(ds[..n])| ensures Head(Sorted(ds[..n])[i]) != Head(ds[n]) {
        assert Sorted(ds[..n])[i] in multiset(Sorted(ds[..n]));
        var j :| 0 <= j < n && ds[..n][j] == Sorted(ds[..n])[i];
      }
      InsertInOrder(ds[n], Sorted(ds[..n]));
    }
  }

  /** A list in order is its own sort. */
  lemma {:induction false} InOrderIsSorted(ds: seq<Difference>)
    requires InOrder(ds)
    ensures Sorted(ds) == ds
  {
    if ds != [] {
      var n := |ds| - 1;
      InOrderIsSorted(ds[..n]);
      InsertLast(ds[n], ds[..n]);
    }
  }

  lemma {:induction false} InsertLast(d: Difference, ds: seq<Difference>)
    requires forall i :: 0 <= i < |ds| ==> Less(Head(ds[i]), Head(d))
    ensures Insert(d, ds) == ds + [d]
  {
    if ds != [] {
      LessAsymmetric(Head(ds[0]), Head(d));
      InsertLast(d, ds[1..]);
      assert ds == [ds[0]] + ds[1..];
    }
  }

  /** Two lists in order with the same elements are the same list: the result of a comparison is fully determined. */
  lemma {:induction false} OrderDetermines(c: seq<Difference>, d: seq<Difference>)
    requires InOrder(c) && InOrder(d) && forall x :: x in c <==> x in d
    ensures c == d
  {
    assert d != [] ==> d[0] in d;
    if c != [] {
      assert c[0] in d;
      assert d[0] in c;
      SameFirst(c, d);
      forall x ensures x in c[1..] <==> x in d[1..] {
        InTail(c, x);
        InTail(d, x);
      }
      OrderDetermines(c[1..], d[1..]);
      assert c == [c[0]] + c[1..] && d == [d[0]] + d[1..];
    }
  }

  lemma SameFirst(c: seq<Difference>, d: seq<Difference>)
    requires InOrder(c) && InOrder(d) && c != [] && d != [] && c[0] in d && d[0] in c
    ensures c[0] == d[0]
  {
    var i :| 0 <= i < |d| && d[i] == c[0];
    var j :| 0 <= j < |c| && c[j] == d[0];
    LessIrreflexive(Head(c[0]));
    if i > 0 && j > 0 {
      LessTransitive(Head(c[0]), Head(d[0]), Head(c[0]));
    }
  }

  lemma InTail(c: seq<Difference>, x: Difference)
    requires InOrder(c) && c != []
    ensures x in c[1..] <==> x in c && x != c[0]
  {
    LessIrreflexive(Head(c[0]));
    if x in c && x != c[0] {
      var i :| 0 <= i < |c| && c[i] == x;
      assert c[1..][i - 1] == x;
    }
  }

  // ----- the checks of a persisted case -----

  predicate NoRepeat(paths: seq<string>) {
    forall i, j :: 0 <= i < j < |paths| ==> paths[i] != paths[j]
  }

  function BeforePaths(ds: seq<Difference>): seq<string> {
    if ds == [] then [] else (if ds[0].before.Some? then [ds[0].before.value.path] else []) + BeforePaths(ds[1..])
  }

  function AfterPaths(ds: seq<Difference>): seq<string> {
    if ds == [] then [] else (if ds[0].after.Some? then [ds[0].after.value.path] else []) + AfterPaths(ds[1..])
  }

  predicate MatchesSnapshot(d: Difference, snapshot: Inventory) {
    && (d.before.Some? ==> d.before.value.path in snapshot && snapshot[d.before.value.path] == d.before.value)
    && (d.kind.Added? || d.kind.Renamed? ==> d.after.Some? && d.after.value.path !in snapshot)
  }

  /** Everything the case record demands of its stale differences. */
  predicate CaseAccepts(ds: seq<Difference>, snapshot: Inventory) {
    && ds == Sorted(ds)
    && (forall i, j :: 0 <= i < j < |ds| ==> ds[i] != ds[j])
    && NoRepeat(BeforePaths(ds)) && NoRepeat(AfterPaths(ds))
    && (forall i :: 0 <= i < |ds| ==> ExactTransition(ds[i]) && MatchesSnapshot(ds[i], snapshot))
  }

  lemma {:induction false} BeforePathsFrom(ds: seq<Difference>)
    ensures forall p :: p in BeforePaths(ds) ==>
      exists i :: 0 <= i < |ds| && ds[i].before.Some? && ds[i].before.value.path == p
    ensures BeforePathsDiffer(ds) ==> NoRepeat(BeforePaths(ds))
  {
    if ds != [] {
      BeforePathsFrom(ds[1..]);
      assert forall i :: 0 <= i < |ds[1..]| ==> ds[1..][i] == ds[i + 1];
      assert BeforePathsDiffer(ds) ==> BeforePathsDiffer(ds[1..]);
      if ds[0].before.Some? && BeforePathsDiffer(ds) {
        assert ds[0].before.value.path !in BeforePaths(ds[1..]);
      }
    }
  }

  lemma {:induction false} AfterPathsFrom(ds: seq<Difference>)
    ensures forall p :: p in AfterPaths(ds) ==>
      exists i :: 0 <= i < |ds| && ds[i].after.Some? && ds[i].after.value.path == p
    ensures AfterPathsDiffer(ds) ==> NoRepeat(AfterPaths(ds))
  {
    if ds != [] {
      AfterPathsFrom(ds[1..]);
      assert forall i :: 0 <= i < |ds[1..]| ==> ds[1..][i] == ds[i + 1];
      assert AfterPathsDiffer(ds) ==> AfterPathsDiffer(ds[1..]);
      if ds[0].after.Some? && AfterPathsDiffer(ds) {
        assert ds[0].after.value.path !in AfterPaths(ds[1..]);
      }
    }
  }

  /** Whatever a comparison returns, a case built on the first snapshot accepts. */
  lemma ComparisonIsAccepted(a: Inventory, b: Inventory, ds: seq<Difference>)
    requires Keyed(a) && Keyed(b) && Comparable(a, b) && Complete(a, b, ds)
    ensures CaseAccepts(ds, a)
  {
    InOrderIsSorted(ds);
    PathsDiffer(a, b, ds);
    BeforePathsFrom(ds);
    AfterPathsFrom(ds);
    forall i | 0 <= i < |ds| ensures ExactTransition(ds[i]) && MatchesSnapshot(ds[i], a) {
      assert ds[i] in ds;
      DifferenceAccepted(a, b, ds[i]);
    }
    forall i, j | 0 <= i < j < |ds| ensures ds[i] != ds[j] {
      LessAsymmetric(Head(ds[i]), Head(ds[j]));
    }
  }

  lemma DifferenceAccepted(a: Inventory, b: Inventory, d: Difference)
    requires Keyed(a) && Keyed(b) && Comparable(a, b) && IsDifference(a, b, d)
    ensures ExactTransition(d) && MatchesSnapshot(d, a)
  {
  }

  // ----- exactly what a persisted case accepts -----

  lemma {:induction false} BeforePathListed(ds: seq<Difference>, i: nat)
    requires i < |ds| && ds[i].before.Some?
    ensures ds[i].before.value.path in BeforePaths(ds)
  {
    if i > 0 {
      BeforePathListed(ds[1..], i - 1);
    }
  }

  lemma {:induction false} AfterPathListed(ds: seq<Difference>, i: nat)
    requires i < |ds| && ds[i].after.Some?
    ensures ds[i].after.value.path in AfterPaths(ds)
  {
    if i > 0 {
      AfterPathListed(ds[1..], i - 1);
    }
  }

  lemma NoRepeatTail(head: seq<string>, tail: seq<string>)
    requires NoRepeat(head + tail)
    ensures NoRepeat(tail) && forall p :: p in head ==> p !in tail
  {
    forall i, j | 0 <= i < j < |tail| ensures tail[i] != tail[j] {
      assert (head + tail)[|head| + i] == tail[i] && (head + tail)[|head| + j] == tail[j];
    }
    forall i, j | 0 <= i < |head| && 0 <= j < |tail| ensures head[i] != tail[j] {
      assert (head + tail)[i] == head[i] && (head + tail)[|head| + j] == tail[j];
    }
  }

  lemma {:induction false} BeforePathsIff(ds: seq<Difference>)
    ensures NoRepeat(BeforePaths(ds)) <==> BeforePathsDiffer(ds)
  {
    BeforePathsFrom(ds);
    if ds != [] && NoRepeat(BeforePaths(ds)) {
      NoRepeatTail(if ds[0].before.Some? then [ds[0].before.value.path] else [], BeforePaths(ds[1..]));
      BeforePathsIff(ds[1..]);
      forall i, j | 0 <= i < j < |ds| && ds[i].before.Some? && ds[j].before.Some?
        ensures ds[i].before.value.path != ds[j].before.value.path
      {
        BeforePathListed(ds[1..], j - 1);
        assert i > 0 ==> ds[i] == ds[1..][i - 1] && ds[j] == ds[1..][j - 1];
      }
    }
  }

  lemma {:induction false} AfterPathsIff(ds: seq<Difference>)
    ensures NoRepeat(AfterPaths(ds)) <==> AfterPathsDiffer(ds)
  {
    AfterPathsFrom(ds);
    if ds != [] && NoRepeat(AfterPaths(ds)) {
      NoRepeatTail(if ds[0].after.Some? then [ds[0].after.value.path] else [], AfterPaths(ds[1..]));
      AfterPathsIff(ds[1..]);
      forall i, j | 0 <= i < j < |ds| && ds[i].after.Some? && ds[j].after.Some?
        ensures ds[i].after.value.path != ds[j].after.value.path
      {
        AfterPathListed(ds[1..], j - 1);
        assert i > 0 ==> ds[i] == ds[1..][i - 1] && ds[j] == ds[1..][j - 1];
      }
    }
  }

  /** Each transition is of its own kind, starts at a member of the snapshot, and new paths are new. */
  ghost predicate StartsAt(d: Difference, a: Inventory) {
    && KindBetween(d.before, d.after) == Some(d.kind)
    && (d.before.Some? ==> d.before.value.path in a && a[d.before.value.path] == d.before.value)
    && (d.kind == Added || d.kind == Renamed ==> AfterPath(d) !in a)
  }

  lemma StartsAtIff(d: Difference, a: Inventory)
    ensures StartsAt(d, a) <==> ExactTransition(d) && MatchesSnapshot(d, a)
  {
    ExactMeansKind(d);
  }

  /** Then no two have the same first key. */
  lemma HeadsApart(ds: seq<Difference>, a: Inventory)
    requires Keyed(a) && BeforePathsDiffer(ds) && AfterPathsDiffer(ds)
    requires forall i :: 0 <= i < |ds| ==> StartsAt(ds[i], a)
    ensures HeadsDiffer(ds)
  {
    forall i, j | 0 <= i < j < |ds| ensures Head(ds[i]) != Head(ds[j]) {
      assert StartsAt(ds[i], a) && StartsAt(ds[j], a);
    }
  }

  /**
  A persisted case accepts exactly the lists, in path order, of transitions that start at its snapshot: no path is
  left twice and none is reached twice.
  */
  lemma CaseAcceptsIff(ds: seq<Difference>, a: Inventory)
    requires Keyed(a)
    ensures CaseAccepts(ds, a) <==>
      && InOrder(ds) && BeforePathsDiffer(ds) && AfterPathsDiffer(ds)
      && forall i :: 0 <= i < |ds| ==> StartsAt(ds[i], a)
  {
    BeforePathsIff(ds);
    AfterPathsIff(ds);
    forall i | 0 <= i < |ds| ensures StartsAt(ds[i], a) <==> ExactTransition(ds[i]) && MatchesSnapshot(ds[i], a) {
      StartsAtIff(ds[i], a);
    }
    if CaseAccepts(ds, a) {
      HeadsApart(ds, a);
      SortedInOrder(ds);
    } else if InOrder(ds) {
      InOrderIsSorted(ds);
      DistinctInOrder(ds);
    }
  }

  lemma DistinctInOrder(ds: seq<Difference>)
    requires InOrder(ds)
    ensures forall i, j :: 0 <= i < j < |ds| ==> ds[i] != ds[j]
  {
    forall i, j | 0 <= i < j < |ds| ensures ds[i] != ds[j] {
      LessIrreflexive(Head(ds[i]));
    }
  }
}

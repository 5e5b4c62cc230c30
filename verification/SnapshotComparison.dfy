/** The comparison itself: dictionaries shrunk and a list grown step by step, then sorted (src/name_atlas/cases.py). */
module SnapshotComparison {
  import opened Common
  import opened SnapshotDiff
  import opened SnapshotCompare

  type Payload = (string, string, nat, string)

  ghost predicate GroupOk(members: Inventory, seen: set<string>, group: seq<Member>, id: Payload) {
    && group != [] && Distinct(group)
    && forall m :: m in group ==> m.path in members && members[m.path] == m && Identity(m) == id && m.path in seen
  }

  ghost predicate Grouped(members: Inventory, seen: set<string>, grouped: map<Payload, seq<Member>>) {
    && (forall id :: id in grouped ==> GroupOk(members, seen, grouped[id], id))
    && (forall p :: p in members && p in seen ==>
      Identity(members[p]) in grouped && members[p] in grouped[Identity(members[p])])
  }

  function Extended(grouped: map<Payload, seq<Member>>, m: Member): map<Payload, seq<Member>> {
    grouped[Identity(m) := (if Identity(m) in grouped then grouped[Identity(m)] else []) + [m]]
  }

  lemma GroupExtends(members: Inventory, seen: set<string>, grouped: map<Payload, seq<Member>>, path: string)
    requires Keyed(members) && Grouped(members, seen, grouped) && path in members && path !in seen
    ensures Grouped(members, seen + {path}, Extended(grouped, members[path]))
  {
  }

  /** Members grouped by payload identity; a group is used only when it holds one member, so its order is immaterial. */
  method GroupByIdentity(members: Inventory) returns (grouped: map<Payload, seq<Member>>)
    requires Keyed(members)
    ensures Grouped(members, members.Keys, grouped)
  {
    grouped := map[];
    var paths := members.Keys;
    while paths != {}
      invariant paths <= members.Keys
      invariant Grouped(members, members.Keys - paths, grouped)
      decreases |paths|
    {
      var path :| path in paths;
      GroupExtends(members, members.Keys - paths, grouped, path);
      assert members.Keys - (paths - {path}) == members.Keys - paths + {path};
      var member := members[path];
      var group := if Identity(member) in grouped then grouped[Identity(member)] else [];
      grouped := grouped[Identity(member) := group + [member]];
      paths := paths - {path};
    }
    assert members.Keys - {} == members.Keys;
  }

  /** A group of one member is exactly an identity that is unambiguous on its side. */
  lemma AloneMeansUnique(members: Inventory, grouped: map<Payload, seq<Member>>, id: Payload)
    requires Keyed(members) && id in grouped && grouped[id] != [] && Distinct(grouped[id])
    requires forall m :: m in grouped[id] ==> m.path in members && members[m.path] == m && Identity(m) == id
    requires forall p :: p in members && Identity(members[p]) == id ==> members[p] in grouped[id]
    ensures |grouped[id]| == 1 <==>
      forall p :: p in members && Identity(members[p]) == id ==> members[p] == grouped[id][0]
  {
    var group := grouped[id];
    assert group[0] in group;
    if |group| > 1 {
      assert group[1] in group && group[0] != group[1];
      assert members[group[1].path] == group[1];
    }
  }

  function OnlyIn(a: Inventory, b: Inventory): Inventory {
    map p | p in a && p !in b :: a[p]
  }

  ghost predicate Pairs(a: Inventory, b: Inventory, m: Member) {
    exists n :: RenamePair(a, b, m, n)
  }

  ghost predicate Paired(a: Inventory, b: Inventory, n: Member) {
    exists m :: RenamePair(a, b, m, n)
  }

  /** For an identity on both sides, being alone in both groups is being a rename pair. */
  lemma GroupsDecide(a: Inventory, b: Inventory, before: map<Payload, seq<Member>>, after: map<Payload, seq<Member>>,
    id: Payload)
    requires Keyed(a) && Keyed(b) && id in before && id in after
    requires before[id] != [] && Distinct(before[id]) && after[id] != [] && Distinct(after[id])
    requires forall m :: m in before[id] <==> Only(a, b, m) && Identity(m) == id
    requires forall n :: n in after[id] <==> Only(b, a, n) && Identity(n) == id
    ensures |before[id]| == 1 && |after[id]| == 1 ==> RenamePair(a, b, before[id][0], after[id][0])
    ensures PairOf(a, b, id, if |before[id]| == 1 && |after[id]| == 1 then Some((before[id][0], after[id][0]))
      else None)
  {
    AloneMeansUnique(OnlyIn(a, b), before, id);
    AloneMeansUnique(OnlyIn(b, a), after, id);
    assert before[id][0] in before[id] && after[id][0] in after[id];
  }

  lemma GroupMembership(a: Inventory, b: Inventory, grouped: map<Payload, seq<Member>>, id: Payload)
    requires Keyed(a) && id in grouped && Grouped(OnlyIn(a, b), OnlyIn(a, b).Keys, grouped)
    ensures grouped[id] != [] && Distinct(grouped[id])
    ensures forall m :: m in grouped[id] <==> Only(a, b, m) && Identity(m) == id
  {
  }

  // ----- the state of the rename loop: `rest` holds the identities not yet visited -----

  ghost predicate RenamesUpTo(a: Inventory, b: Inventory, renames: seq<Difference>, rest: set<Payload>) {
    && Distinct(renames)
    && forall d :: d in renames <==> d.kind.Renamed? && IsDifference(a, b, d) && Identity(d.before.value) !in rest
  }

  ghost predicate RemovedUpTo(a: Inventory, b: Inventory, removed: Inventory, rest: set<Payload>) {
    && (forall p :: p in removed <==> p in a && p !in b && !(Pairs(a, b, a[p]) && Identity(a[p]) !in rest))
    && (forall p :: p in removed ==> removed[p] == a[p])
  }

  ghost predicate AddedUpTo(a: Inventory, b: Inventory, added: Inventory, rest: set<Payload>) {
    && (forall p :: p in added <==> p in b && p !in a && !(Paired(a, b, b[p]) && Identity(b[p]) !in rest))
    && (forall p :: p in added ==> added[p] == b[p])
  }

  /** The pairs of one identity: none, or one. */
  ghost predicate PairOf(a: Inventory, b: Inventory, id: Payload, pair: Option<(Member, Member)>) {
    && (pair.Some? ==> RenamePair(a, b, pair.value.0, pair.value.1) && Identity(pair.value.0) == id)
    && forall m, n :: RenamePair(a, b, m, n) && Identity(m) == id ==> pair == Some((m, n))
  }

  lemma RenamesStep(a: Inventory, b: Inventory, renames: seq<Difference>, rest: set<Payload>, id: Payload,
    pair: Option<(Member, Member)>)
    requires RenamesUpTo(a, b, renames, rest) && id in rest && PairOf(a, b, id, pair)
    ensures RenamesUpTo(a, b,
      if pair.Some? then renames + [Difference(Renamed, Some(pair.value.0), Some(pair.value.1))] else renames,
      rest - {id})
  {
  }

  lemma RemovedStep(a: Inventory, b: Inventory, removed: Inventory, rest: set<Payload>, id: Payload,
    pair: Option<(Member, Member)>)
    requires Keyed(a) && RemovedUpTo(a, b, removed, rest) && id in rest && PairOf(a, b, id, pair)
    ensures RemovedUpTo(a, b, if pair.Some? then removed - {pair.value.0.path} else removed, rest - {id})
  {
  }

  lemma AddedStep(a: Inventory, b: Inventory, added: Inventory, rest: set<Payload>, id: Payload,
    pair: Option<(Member, Member)>)
    requires Keyed(b) && AddedUpTo(a, b, added, rest) && id in rest && PairOf(a, b, id, pair)
    ensures AddedUpTo(a, b, if pair.Some? then added - {pair.value.1.path} else added, rest - {id})
  {
  }

  /** Before the loop, nothing is matched; only identities on both sides can ever match. */
  lemma RenamesStart(a: Inventory, b: Inventory, before: map<Payload, seq<Member>>, after: map<Payload, seq<Member>>)
    requires Grouped(OnlyIn(a, b), OnlyIn(a, b).Keys, before) && Grouped(OnlyIn(b, a), OnlyIn(b, a).Keys, after)
    ensures var rest := before.Keys * after.Keys;
      RenamesUpTo(a, b, [], rest) && RemovedUpTo(a, b, OnlyIn(a, b), rest) && AddedUpTo(a, b, OnlyIn(b, a), rest)
  {
    forall m, n | RenamePair(a, b, m, n) ensures Identity(m) in before.Keys * after.Keys {
      assert m.path in OnlyIn(a, b) && n.path in OnlyIn(b, a);
    }
  }

  method MatchRenames(a: Inventory, b: Inventory)
    returns (renames: seq<Difference>, removed: Inventory, added: Inventory)
    requires Keyed(a) && Keyed(b)
    ensures RenamesUpTo(a, b, renames, {}) && RemovedUpTo(a, b, removed, {}) && AddedUpTo(a, b, added, {})
  {
    renames, removed, added := [], OnlyIn(a, b), OnlyIn(b, a);
    var before := GroupByIdentity(removed);
    var after := GroupByIdentity(added);
    var identities := before.Keys * after.Keys;
    RenamesStart(a, b, before, after);
    while identities != {}
      invariant identities <= before.Keys * after.Keys
      invariant RenamesUpTo(a, b, renames, identities)
      invariant RemovedUpTo(a, b, removed, identities)
      invariant AddedUpTo(a, b, added, identities)
      decreases |identities|
    {
      var id :| id in identities;
      GroupMembership(a, b, before, id);
      GroupMembership(b, a, after, id);
      GroupsDecide(a, b, before, after, id);
      var alone := |before[id]| == 1 && |after[id]| == 1;
      ghost var pair := if alone then Some((before[id][0], after[id][0])) else None;
      RenamesStep(a, b, renames, identities, id, pair);
      RemovedStep(a, b, removed, identities, id, pair);
      AddedStep(a, b, added, identities, id, pair);
      if alone {
        var m, n := before[id][0], after[id][0];
        renames := renames + [Difference(Renamed, Some(m), Some(n))];
        removed := removed - {m.path};
        added := added - {n.path};
      }
      identities := identities - {id};
    }
  }

  // ----- paths on both sides, then what is left over on one -----

  ghost predicate ChangedUpTo(a: Inventory, b: Inventory, members: seq<Member>, n: nat, ds: seq<Difference>)
    requires n <= |members|
  {
    && Distinct(ds)
    && (forall d :: d in ds ==> (d.kind.Resized? || d.kind.ContentChanged?) && IsDifference(a, b, d))
    && (forall d :: d in ds ==> exists i :: 0 <= i < n && members[i] == d.before.value)
    && (forall i :: 0 <= i < n && members[i].path in b && members[i] != b[members[i].path] ==>
      ChangeOf(members[i], b) in ds)
  }

  function ChangeOf(m: Member, b: Inventory): Difference
    requires m.path in b
  {
    Difference(if m.size != b[m.path].size then Resized else ContentChanged, Some(m), Some(b[m.path]))
  }

  /**
  Two snapshots are comparable exactly when the validator passes each change of a shared path as what it is
  called.
  */
  lemma ComparableIff(a: Inventory, b: Inventory)
    requires Keyed(a) && Keyed(b)
    ensures Comparable(a, b) <==> forall p :: p in a && p in b && a[p] != b[p] ==> ExactTransition(ChangeAt(a, b, p))
    ensures Comparable(a, b) <==> forall p :: p in a && p in b && a[p] != b[p] ==>
      a[p].role == b[p].role && a[p].kind == b[p].kind && a[p].sha256 != b[p].sha256
  {
    forall p | p in a && p in b && a[p] != b[p]
      ensures !Incomparable(a[p], b[p]) <==> ExactTransition(ChangeAt(a, b, p))
      ensures !Incomparable(a[p], b[p]) <==>
        a[p].role == b[p].role && a[p].kind == b[p].kind && a[p].sha256 != b[p].sha256
    {
      assert a[p].path == b[p].path == p;
    }
  }

  /** A shared path whose size differs was resized, one with the same size has other content. */
  function ChangeAt(a: Inventory, b: Inventory, p: string): Difference
    requires p in a && p in b
  {
    Difference(if a[p].size == b[p].size then ContentChanged else Resized, Some(a[p]), Some(b[p]))
  }

  /** What is said of the first shared path that no difference may describe. */
  ghost predicate FirstOffence(previous: seq<Member>, b: Inventory, error: CompareError) {
    exists i :: 0 <= i < |previous| && previous[i].path in b
      && var before, after := previous[i], b[previous[i].path];
        && Incomparable(before, after)
        && (forall j :: 0 <= j < i && previous[j].path in b ==> !Incomparable(previous[j], b[previous[j].path]))
        && (before.role == after.role && before.kind == after.kind ==> error == InvalidDifference(before.path))
        && (before.role != after.role || before.kind != after.kind ==> error == RoleOrKindChanged(before.path))
  }

  /** Shared paths in sorted order, stopping at the first one that no difference may describe. */
  method ChangedInPlace(previous: seq<Member>, a: Inventory, b: Inventory)
    returns (r: Result<seq<Difference>, CompareError>)
    requires ValidSnapshot(previous) && a == ByPath(previous) && Keyed(b)
    ensures r.Ok? <==> Comparable(a, b)
    ensures r.Ok? ==> ChangedUpTo(a, b, previous, |previous|, r.value)
    ensures r.Err? ==> FirstOffence(previous, b, r.error)
  {
    ByPathMeaning(previous);
    var ds := [];
    for i := 0 to |previous|
      invariant ChangedUpTo(a, b, previous, i, ds)
      invariant forall j :: 0 <= j < i && previous[j].path in b ==> !Incomparable(previous[j], b[previous[j].path])
    {
      var before := previous[i];
      if before.path in b && before != b[before.path] {
        var after := b[before.path];
        if before.role != after.role || before.kind != after.kind {
          return Err(RoleOrKindChanged(before.path));
        }
        var d := Difference(if before.size != after.size then Resized else ContentChanged, Some(before), Some(after));
        if !ExactTransition(d) {
          return Err(InvalidDifference(before.path));
        }
        ds := ds + [d];
      }
    }
    return Ok(ds);
  }

  method AllRemoved(removed: Inventory) returns (ds: seq<Difference>)
    requires Keyed(removed)
    ensures Distinct(ds)
    ensures forall d :: d in ds <==> exists p :: p in removed && d == Difference(Removed, Some(removed[p]), None)
  {
    ds := [];
    var paths := removed.Keys;
    while paths != {}
      invariant paths <= removed.Keys && Distinct(ds)
      invariant forall d ::
        d in ds <==> exists p :: p in removed && p !in paths && d == Difference(Removed, Some(removed[p]), None)
      decreases |paths|
    {
      var path :| path in paths;
      var d := Difference(Removed, Some(removed[path]), None);
      assert d !in ds;
      ds := ds + [d];
      paths := paths - {path};
    }
  }

  method AllAdded(added: Inventory) returns (ds: seq<Difference>)
    requires Keyed(added)
    ensures Distinct(ds)
    ensures forall d :: d in ds <==> exists p :: p in added && d == Difference(Added, None, Some(added[p]))
  {
    ds := [];
    var paths := added.Keys;
    while paths != {}
      invariant paths <= added.Keys && Distinct(ds)
      invariant forall d ::
        d in ds <==> exists p :: p in added && p !in paths && d == Difference(Added, None, Some(added[p]))
      decreases |paths|
    {
      var path :| path in paths;
      var d := Difference(Added, None, Some(added[path]));
      assert d !in ds;
      ds := ds + [d];
      paths := paths - {path};
    }
  }

  /** The four parts hold exactly the differences of their kinds. */
  lemma ChangedPart(a: Inventory, b: Inventory, previous: seq<Member>, ds: seq<Difference>)
    requires ValidSnapshot(previous) && a == ByPath(previous) && Keyed(b) && ChangedUpTo(a, b, previous, |previous|, ds)
    ensures forall d :: d in ds <==> (d.kind.Resized? || d.kind.ContentChanged?) && IsDifference(a, b, d)
  {
    ByPathMeaning(previous);
    forall d: Difference | (d.kind.Resized? || d.kind.ContentChanged?) && IsDifference(a, b, d) ensures d in ds {
      var i :| 0 <= i < |previous| && previous[i].path == d.before.value.path;
      assert d == ChangeOf(previous[i], b);
    }
  }

  lemma RemovedPart(a: Inventory, b: Inventory, removed: Inventory, ds: seq<Difference>)
    requires Keyed(a) && RemovedUpTo(a, b, removed, {})
    requires forall d :: d in ds <==> exists p :: p in removed && d == Difference(Removed, Some(removed[p]), None)
    ensures forall d :: d in ds <==> d.kind.Removed? && IsDifference(a, b, d)
  {
  }

  lemma AddedPart(a: Inventory, b: Inventory, added: Inventory, ds: seq<Difference>)
    requires Keyed(b) && AddedUpTo(a, b, added, {})
    requires forall d :: d in ds <==> exists p :: p in added && d == Difference(Added, None, Some(added[p]))
    ensures forall d :: d in ds <==> d.kind.Added? && IsDifference(a, b, d)
  {
  }

  lemma DistinctTogether(c: seq<Difference>, d: seq<Difference>)
    requires Distinct(c) && Distinct(d) && forall x :: x in c ==> x !in d
    ensures Distinct(c + d)
  {
    forall i, j | 0 <= i < |c| && 0 <= j < |d| ensures c[i] != d[j] {
      assert c[i] in c && d[j] in d;
    }
  }

  lemma SortedIsComplete(a: Inventory, b: Inventory, ds: seq<Difference>)
    requires Keyed(a) && Keyed(b) && Distinct(ds) && forall d :: d in ds <==> IsDifference(a, b, d)
    ensures Complete(a, b, Sorted(ds))
  {
    forall i, j | 0 <= i < j < |ds| ensures Head(ds[i]) != Head(ds[j]) {
      assert ds[i] in ds && ds[j] in ds;
      if Head(ds[i]) == Head(ds[j]) {
        HeadDetermines(a, b, ds[i], ds[j]);
      }
    }
    SortedInOrder(ds);
    SortedKeeps(ds);
    forall d ensures d in Sorted(ds) <==> d in ds {
      assert d in multiset(Sorted(ds)) <==> d in multiset(ds);
    }
  }

  lemma PartsTogether(a: Inventory, b: Inventory, changed: seq<Difference>, renames: seq<Difference>,
    gone: seq<Difference>, come: seq<Difference>)
    requires Keyed(a) && Keyed(b) && Distinct(changed) && Distinct(renames) && Distinct(gone) && Distinct(come)
    requires forall d :: d in changed <==> (d.kind.Resized? || d.kind.ContentChanged?) && IsDifference(a, b, d)
    requires forall d :: d in renames <==> d.kind.Renamed? && IsDifference(a, b, d)
    requires forall d :: d in gone <==> d.kind.Removed? && IsDifference(a, b, d)
    requires forall d :: d in come <==> d.kind.Added? && IsDifference(a, b, d)
    ensures Complete(a, b, Sorted(changed + renames + gone + come))
  {
    DistinctTogether(changed, renames);
    DistinctTogether(changed + renames, gone);
    DistinctTogether(changed + renames + gone, come);
    SortedIsComplete(a, b, changed + renames + gone + come);
  }

  /**
  Compares a case's snapshot with the current source. It fails exactly when the current snapshot is
  malformed or some path holds two records that no difference may describe; otherwise it returns
  every difference, once, in order.
  */
  method CompareSourceSnapshots(previous: seq<Member>, current: seq<Member>)
    returns (r: Result<seq<Difference>, CompareError>)
    requires ValidSnapshot(previous)
    ensures r.Ok? <==> ValidSnapshot(current) && Comparable(ByPath(previous), ByPath(current))
    ensures r.Ok? ==> Complete(ByPath(previous), ByPath(current), r.value)
    ensures r.Err? ==>
      if ValidSnapshot(current) then FirstOffence(previous, ByPath(current), r.error) else r.error == InvalidSnapshot
  {
    if !ValidSnapshot(current) {
      return Err(InvalidSnapshot);
    }
    ByPathMeaning(previous);
    ByPathMeaning(current);
    var a, b := ByPath(previous), ByPath(current);
    var changed := ChangedInPlace(previous, a, b);
    if changed.Err? {
      return changed;
    }
    var renames, removed, added := MatchRenames(a, b);
    var gone := AllRemoved(removed);
    var come := AllAdded(added);
    ChangedPart(a, b, previous, changed.value);
    RemovedPart(a, b, removed, gone);
    AddedPart(a, b, added, come);
    PartsTogether(a, b, changed.value, renames, gone, come);
    var ds := changed.value + renames + gone + come;
    return Ok(Sorted(ds));
  }
}

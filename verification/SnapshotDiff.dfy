/**
The differences between two source snapshots as a mathematical object: which differences there are,
what order they come in, and what the list of them means (src/name_atlas/cases.py).
*/
module SnapshotDiff {
  import opened Common

  datatype Member = Member(path: string, role: string, kind: string, size: nat, sha256: string)

  datatype Kind = Added | ContentChanged | Removed | Renamed | Resized

  datatype Difference = Difference(kind: Kind, before: Option<Member>, after: Option<Member>)

  /** A snapshot indexed by path. */
  type Inventory = map<string, Member>

  ghost predicate Keyed(a: Inventory) {
    forall p :: p in a ==> a[p].path == p && p != ""
  }

  function Identity(m: Member): (string, string, nat, string) {
    (m.role, m.kind, m.size, m.sha256)
  }

  // ----- one difference -----

  /** The validator of a single difference, rejection by rejection. */
  predicate ExactTransition(d: Difference) {
    match d.kind
    case Added =>
      && d.before.None? && d.after.Some?
    case Removed =>
      && d.before.Some? && d.after.None?
    case _ =>
      && d.before.Some? && d.after.Some?
      && var b, a := d.before.value, d.after.value;
      && b.role == a.role && b.kind == a.kind
      && (d.kind.Renamed? ==> b.path != a.path && b.size == a.size && b.sha256 == a.sha256)
      && (d.kind.Resized? ==> b.path == a.path && b.size != a.size && b.sha256 != a.sha256)
      && (d.kind.ContentChanged? ==> b.path == a.path && b.size == a.size && b.sha256 != a.sha256)
  }

  /** The first sort key: the old path when there is one. */
  function Head(d: Difference): string {
    if d.before.Some? && d.before.value.path != "" then d.before.value.path else AfterPath(d)
  }

  function AfterPath(d: Difference): string {
    if d.after.Some? then d.after.value.path else ""
  }

  /** What kind of transition leads from one record, if any, to another. */
  function KindBetween(before: Option<Member>, after: Option<Member>): Option<Kind> {
    if before.None? && after.None? then None
    else if before.None? then Some(Added)
    else if after.None? then Some(Removed)
    else if before.value.role != after.value.role || before.value.kind != after.value.kind then None
    else if before.value.path != after.value.path then
      if before.value.size == after.value.size && before.value.sha256 == after.value.sha256 then Some(Renamed) else None
    else if before.value.sha256 == after.value.sha256 then None
    else if before.value.size == after.value.size then Some(ContentChanged)
    else Some(Resized)
  }

  /** The validator passes a transition exactly as the kind it is: no pair of records passes as two. */
  lemma ExactMeansKind(d: Difference)
    ensures ExactTransition(d) <==> KindBetween(d.before, d.after) == Some(d.kind)
  {
  }

  function KindName(k: Kind): string {
    match k
    case Added => "added"
    case ContentChanged => "content_changed"
    case Removed => "removed"
    case Renamed => "renamed"
    case Resized => "resized"
  }

  /** Kinds in the order of their names. */
  function Rank(k: Kind): int {
    match k
    case Added => 0
    case ContentChanged => 1
    case Removed => 2
    case Renamed => 3
    case Resized => 4
  }

  predicate Less(a: string, b: string) {
    b != "" && (a == "" || a[0] < b[0] || (a[0] == b[0] && Less(a[1..], b[1..])))
  }

  /** Text order by code points: at the first place they differ, the first has ended or has the smaller one. */
  ghost predicate Precedes(a: string, b: string) {
    exists k :: 0 <= k <= |a| && k < |b| && a[..k] == b[..k] && (k == |a| || a[k] < b[k])
  }

  lemma SamePrefixHead(a: string, b: string, k: nat)
    requires 0 < k <= |a| && k <= |b| && a[..k] == b[..k]
    ensures a[0] == b[0]
  {
    assert a[..k][0] == b[..k][0];
  }

  lemma {:induction false} LessIff(a: string, b: string)
    ensures Less(a, b) <==> Precedes(a, b)
  {
    if a != "" && b != "" && a[0] == b[0] {
      LessIff(a[1..], b[1..]);
      if Precedes(a[1..], b[1..]) {
        var k :| 0 <= k <= |a[1..]| && k < |b[1..]| && a[1..][..k] == b[1..][..k]
          && (k == |a[1..]| || a[1..][k] < b[1..][k]);
        assert a[..k + 1] == [a[0]] + a[1..][..k] && b[..k + 1] == [b[0]] + b[1..][..k];
      }
      if Precedes(a, b) {
        var k :| 0 <= k <= |a| && k < |b| && a[..k] == b[..k] && (k == |a| || a[k] < b[k]);
        assert k > 0;
        assert a[1..][..k - 1] == a[..k][1..] && b[1..][..k - 1] == b[..k][1..];
      }
    } else {
      assert a[..0] == b[..0];
      if Precedes(a, b) {
        var k :| 0 <= k <= |a| && k < |b| && a[..k] == b[..k] && (k == |a| || a[k] < b[k]);
        if k > 0 {
          SamePrefixHead(a, b, k);
        }
      }
    }
  }

  lemma NameLetters(k: Kind)
    ensures |KindName(k)| > 2
    ensures KindName(k)[0] == if k.Added? then 'a' else if k.ContentChanged? then 'c' else 'r'
    ensures k.Removed? || k.Renamed? || k.Resized? ==> KindName(k)[1] == 'e'
    ensures k.Removed? || k.Renamed? || k.Resized? ==>
      KindName(k)[2] == if k.Removed? then 'm' else if k.Renamed? then 'n' else 's'
  {
  }

  lemma LessStep(a: string, b: string)
    requires a != "" && b != ""
    ensures Less(a, b) <==> a[0] < b[0] || (a[0] == b[0] && Less(a[1..], b[1..]))
  {
  }

  lemma RanksAreNames(k: Kind, l: Kind)
    ensures Rank(k) < Rank(l) <==> Less(KindName(k), KindName(l))
  {
    var a, b := KindName(k), KindName(l);
    NameLetters(k);
    NameLetters(l);
    if k == l {
      LessIrreflexive(a);
    } else {
      LessStep(a, b);
      LessStep(a[1..], b[1..]);
      LessStep(a[1..][1..], b[1..][1..]);
    }
  }

  predicate KeyLess(c: Difference, d: Difference) {
    || Less(Head(c), Head(d))
    || (Head(c) == Head(d) && (Rank(c.kind) < Rank(d.kind) || (c.kind == d.kind && Less(AfterPath(c), AfterPath(d)))))
  }

  /** The sort key: old path or else new path, then the kind's name, then the new path, each by code points. */
  lemma KeyLessIff(c: Difference, d: Difference)
    ensures KeyLess(c, d) <==>
      || Precedes(Head(c), Head(d))
      || (Head(c) == Head(d) && Precedes(KindName(c.kind), KindName(d.kind)))
      || (Head(c) == Head(d) && c.kind == d.kind && Precedes(AfterPath(c), AfterPath(d)))
  {
    LessIff(Head(c), Head(d));
    RanksAreNames(c.kind, d.kind);
    LessIff(KindName(c.kind), KindName(d.kind));
    LessIff(AfterPath(c), AfterPath(d));
  }

  // ----- the differences of two snapshots -----

  /** The member is in `a` and its path is not in `b`. */
  ghost predicate Only(a: Inventory, b: Inventory, m: Member) {
    m.path in a && a[m.path] == m && m.path !in b
  }

  /** A rename is claimed only when the payload identity is unambiguous on both sides. */
  ghost predicate RenamePair(a: Inventory, b: Inventory, m: Member, n: Member) {
    && Only(a, b, m) && Only(b, a, n) && Identity(m) == Identity(n)
    && (forall o :: Only(a, b, o) && Identity(o) == Identity(m) ==> o == m)
    && (forall o :: Only(b, a, o) && Identity(o) == Identity(n) ==> o == n)
  }

  ghost predicate Changed(a: Inventory, b: Inventory, m: Member, n: Member) {
    m.path in a && m.path in b && m == a[m.path] && n == b[m.path] && m != n
  }

  ghost predicate IsDifference(a: Inventory, b: Inventory, d: Difference) {
    match d.kind
    case Added => d.before.None? && d.after.Some? && Only(b, a, d.after.value)
      && forall m :: !RenamePair(a, b, m, d.after.value)
    case Removed => d.before.Some? && d.after.None? && Only(a, b, d.before.value)
      && forall n :: !RenamePair(a, b, d.before.value, n)
    case Renamed => d.before.Some? && d.after.Some? && RenamePair(a, b, d.before.value, d.after.value)
    case Resized =>
      && d.before.Some? && d.after.Some? && Changed(a, b, d.before.value, d.after.value)
      && d.before.value.size != d.after.value.size
    case ContentChanged =>
      && d.before.Some? && d.after.Some? && Changed(a, b, d.before.value, d.after.value)
      && d.before.value.size == d.after.value.size
  }

  /** Two records at one path that no difference may describe. */
  predicate Incomparable(m: Member, n: Member) {
    m != n && (m.role != n.role || m.kind != n.kind || (m.size != n.size && m.sha256 == n.sha256))
  }

  ghost predicate Comparable(a: Inventory, b: Inventory) {
    forall p :: p in a && p in b ==> !Incomparable(a[p], b[p])
  }

  ghost predicate InOrder(ds: seq<Difference>) {
    forall i, j :: 0 <= i < j < |ds| ==> Less(Head(ds[i]), Head(ds[j]))
  }

  /**
  The result of a comparison: all differences and nothing else, in strictly increasing order of their first sort
  key.
  */
  ghost predicate Complete(a: Inventory, b: Inventory, ds: seq<Difference>) {
    (forall d :: d in ds <==> IsDifference(a, b, d)) && InOrder(ds)
  }

  // ----- the order on paths -----

  lemma {:induction false} LessIrreflexive(a: string)
    ensures !Less(a, a)
  {
    if a != "" {
      LessIrreflexive(a[1..]);
    }
  }

  lemma {:induction false} LessTransitive(a: string, b: string, c: string)
    requires Less(a, b) && Less(b, c)
    ensures Less(a, c)
  {
    if a != "" && a[0] == b[0] && b[0] == c[0] {
      LessTransitive(a[1..], b[1..], c[1..]);
    }
  }

  lemma {:induction false} LessTotal(a: string, b: string)
    ensures Less(a, b) || a == b || Less(b, a)
  {
    if a != "" && b != "" && a[0] == b[0] {
      LessTotal(a[1..], b[1..]);
      assert a == [a[0]] + a[1..] && b == [b[0]] + b[1..];
    }
  }

  lemma {:induction false} LessAsymmetric(a: string, b: string)
    requires Less(a, b)
    ensures !Less(b, a) && a != b
  {
    LessIrreflexive(a);
    if Less(b, a) {
      LessTransitive(a, b, a);
    }
  }

  // ----- the first sort key determines the difference -----

  lemma HeadIsBefore(a: Inventory, b: Inventory, d: Difference)
    requires Keyed(a) && Keyed(b) && IsDifference(a, b, d)
    ensures d.before.Some? ==> Head(d) == d.before.value.path && Head(d) in a && d.before.value == a[Head(d)]
    ensures d.before.None? ==> d.kind == Added && Head(d) in b && Head(d) !in a && d.after == Some(b[Head(d)])
    ensures d.after.Some? ==> AfterPath(d) in b && d.after.value == b[AfterPath(d)]
  {
  }

  lemma HeadDetermines(a: Inventory, b: Inventory, c: Difference, d: Difference)
    requires Keyed(a) && Keyed(b) && IsDifference(a, b, c) && IsDifference(a, b, d) && Head(c) == Head(d)
    ensures c == d
  {
  }

  lemma AfterDetermines(a: Inventory, b: Inventory, c: Difference, d: Difference)
    requires Keyed(a) && Keyed(b) && IsDifference(a, b, c) && IsDifference(a, b, d)
    requires c.after.Some? && d.after.Some? && AfterPath(c) == AfterPath(d)
    ensures c == d
  {
  }

  /** Each path that differs has a difference that mentions it on each side it is on. */
  lemma DifferenceAt(a: Inventory, b: Inventory, p: string) returns (d: Difference)
    requires Keyed(a) && Keyed(b) && (p in a || p in b) && !(p in a && p in b && a[p] == b[p])
    ensures IsDifference(a, b, d)
    ensures p in a ==> d.before == Some(a[p])
    ensures p in b ==> d.after == Some(b[p])
  {
    if p in a && p in b {
      d := Difference(if a[p].size != b[p].size then Resized else ContentChanged, Some(a[p]), Some(b[p]));
    } else if p in a {
      if n :| RenamePair(a, b, a[p], n) {
        d := Difference(Renamed, Some(a[p]), Some(n));
      } else {
        d := Difference(Removed, Some(a[p]), None);
      }
    } else {
      if m :| RenamePair(a, b, m, b[p]) {
        d := Difference(Renamed, Some(m), Some(b[p]));
      } else {
        d := Difference(Added, None, Some(b[p]));
      }
    }
  }

  // ----- patching -----

  /** All `before` records taken out. */
  function Without(a: Inventory, ds: seq<Difference>): Inventory {
    if ds == [] then a
    else
      var rest := Without(a, ds[1..]);
      if ds[0].before.Some? then rest - {ds[0].before.value.path} else rest
  }

  /** All `after` records put in. */
  function With(a: Inventory, ds: seq<Difference>): Inventory {
    if ds == [] then a
    else
      var rest := With(a, ds[1..]);
      if ds[0].after.Some? then rest[ds[0].after.value.path := ds[0].after.value] else rest
  }

  function Patch(a: Inventory, ds: seq<Difference>): Inventory {
    With(Without(a, ds), ds)
  }

  ghost predicate Takes(ds: seq<Difference>, p: string) {
    exists i :: 0 <= i < |ds| && ds[i].before.Some? && ds[i].before.value.path == p
  }

  ghost predicate Puts(ds: seq<Difference>, p: string) {
    exists i :: 0 <= i < |ds| && ds[i].after.Some? && ds[i].after.value.path == p
  }

  lemma {:induction false} WithoutAt(a: Inventory, ds: seq<Difference>, p: string)
    ensures p in Without(a, ds) <==> p in a && !Takes(ds, p)
    ensures p in Without(a, ds) ==> Without(a, ds)[p] == a[p]
  {
    if ds != [] {
      WithoutAt(a, ds[1..], p);
      assert Takes(ds, p) <==> (ds[0].before.Some? && ds[0].before.value.path == p) || Takes(ds[1..], p) by {
        if i :| 0 <= i < |ds| && ds[i].before.Some? && ds[i].before.value.path == p {
          assert i == 0 || ds[1..][i - 1] == ds[i];
        }
        if i :| 0 <= i < |ds[1..]| && ds[1..][i].before.Some? && ds[1..][i].before.value.path == p {
          assert ds[i + 1] == ds[1..][i];
        }
      }
    }
  }

  /** `b` holds the record of every path that is put in. */
  ghost predicate PutsFrom(ds: seq<Difference>, b: Inventory) {
    forall i :: 0 <= i < |ds| && ds[i].after.Some? ==>
      ds[i].after.value.path in b && b[ds[i].after.value.path] == ds[i].after.value
  }

  lemma {:induction false} WithAt(a: Inventory, ds: seq<Difference>, b: Inventory, p: string)
    requires PutsFrom(ds, b)
    ensures p in With(a, ds) <==> p in a || Puts(ds, p)
    ensures Puts(ds, p) ==> p in b
    ensures p in With(a, ds) ==> With(a, ds)[p] == if Puts(ds, p) then b[p] else a[p]
  {
    if ds != [] {
      assert forall i :: 0 <= i < |ds[1..]| ==> ds[1..][i] == ds[i + 1];
      WithAt(a, ds[1..], b, p);
      assert Puts(ds, p) <==> (ds[0].after.Some? && ds[0].after.value.path == p) || Puts(ds[1..], p) by {
        if i :| 0 <= i < |ds| && ds[i].after.Some? && ds[i].after.value.path == p {
          assert i == 0 || ds[1..][i - 1] == ds[i];
        }
        if i :| 0 <= i < |ds[1..]| && ds[1..][i].after.Some? && ds[1..][i].after.value.path == p {
          assert ds[i + 1] == ds[1..][i];
        }
      }
    }
  }

  lemma CompletePuts(a: Inventory, b: Inventory, ds: seq<Difference>)
    requires Keyed(a) && Keyed(b) && Complete(a, b, ds)
    ensures PutsFrom(ds, b)
  {
    forall i | 0 <= i < |ds| && ds[i].after.Some?
      ensures ds[i].after.value.path in b && b[ds[i].after.value.path] == ds[i].after.value
    {
      assert ds[i] in ds;
      HeadIsBefore(a, b, ds[i]);
    }
  }

  /** Whether a path is taken out or put in depends only on how the snapshots hold it. */
  lemma TakesPutsAt(a: Inventory, b: Inventory, ds: seq<Difference>, p: string)
    requires Keyed(a) && Keyed(b) && Complete(a, b, ds)
    ensures Takes(ds, p) <==> p in a && !(p in b && a[p] == b[p])
    ensures Puts(ds, p) <==> p in b && !(p in a && a[p] == b[p])
  {
    if (p in a || p in b) && !(p in a && p in b && a[p] == b[p]) {
      var d := DifferenceAt(a, b, p);
      assert d in ds;
    }
    if i :| 0 <= i < |ds| && ds[i].before.Some? && ds[i].before.value.path == p {
      assert IsDifference(a, b, ds[i]) by { assert ds[i] in ds; }
    }
    if i :| 0 <= i < |ds| && ds[i].after.Some? && ds[i].after.value.path == p {
      assert IsDifference(a, b, ds[i]) by { assert ds[i] in ds; }
    }
  }

  /**
  The differences are an exact patch: taking out what was and putting in what is turns one snapshot into the
  other.
  */
  lemma PatchIsExact(a: Inventory, b: Inventory, ds: seq<Difference>)
    requires Keyed(a) && Keyed(b) && Complete(a, b, ds)
    ensures Patch(a, ds) == b
  {
    CompletePuts(a, b, ds);
    forall p ensures p in Patch(a, ds) <==> p in b
             ensures p in b ==> Patch(a, ds)[p] == b[p]
    {
      WithoutAt(a, ds, p);
      WithAt(Without(a, ds), ds, b, p);
      TakesPutsAt(a, b, ds, p);
    }
  }

  lemma NotFromItself(a: Inventory, d: Difference)
    ensures !IsDifference(a, a, d)
  {
  }

  /** Two snapshots have no differences exactly when they are equal. */
  lemma EmptyIffEqual(a: Inventory, b: Inventory, ds: seq<Difference>)
    requires Keyed(a) && Keyed(b) && Complete(a, b, ds)
    ensures ds == [] <==> a == b
  {
    PatchIsExact(a, b, ds);
    if ds != [] {
      assert ds[0] in ds;
      NotFromItself(a, ds[0]);
    }
  }

  // ----- swapping the snapshots -----

  function Inverse(d: Difference): Difference {
    Difference(
      match d.kind
      case Added => Removed
      case Removed => Added
      case other => other,
      d.after, d.before)
  }

  /** Comparing the other way round gives the inverse of every difference and no others. */
  lemma SwapInverts(a: Inventory, b: Inventory, d: Difference)
    requires Keyed(a) && Keyed(b)
    ensures IsDifference(a, b, d) <==> IsDifference(b, a, Inverse(d))
    ensures Inverse(Inverse(d)) == d
    ensures Comparable(a, b) <==> Comparable(b, a)
  {
    if d.before.Some? && d.after.Some? {
      assert RenamePair(a, b, d.before.value, d.after.value) <==> RenamePair(b, a, d.after.value, d.before.value);
    } else if d.before.Some? {
      forall n ensures RenamePair(a, b, d.before.value, n) <==> RenamePair(b, a, n, d.before.value) {}
    } else if d.after.Some? {
      forall m ensures RenamePair(a, b, m, d.after.value) <==> RenamePair(b, a, d.after.value, m) {}
    }
  }

  // ----- counting -----

  function Count(ds: seq<Difference>, kind: Kind): nat {
    if ds == [] then 0 else (if ds[0].kind == kind then 1 else 0) + Count(ds[1..], kind)
  }

  function Befores(ds: seq<Difference>): nat {
    if ds == [] then 0 else (if ds[0].before.Some? then 1 else 0) + Befores(ds[1..])
  }

  function Afters(ds: seq<Difference>): nat {
    if ds == [] then 0 else (if ds[0].after.Some? then 1 else 0) + Afters(ds[1..])
  }

  ghost predicate BeforePathsDiffer(ds: seq<Difference>) {
    forall i, j :: 0 <= i < j < |ds| && ds[i].before.Some? && ds[j].before.Some? ==>
      ds[i].before.value.path != ds[j].before.value.path
  }

  ghost predicate AfterPathsDiffer(ds: seq<Difference>) {
    forall i, j :: 0 <= i < j < |ds| && ds[i].after.Some? && ds[j].after.Some? ==>
      ds[i].after.value.path != ds[j].after.value.path
  }

  lemma {:induction false} WithoutSize(a: Inventory, ds: seq<Difference>)
    requires BeforePathsDiffer(ds)
    requires forall i :: 0 <= i < |ds| && ds[i].before.Some? ==> ds[i].before.value.path in a
    ensures |Without(a, ds)| == |a| - Befores(ds)
  {
    if ds != [] {
      assert forall i :: 0 <= i < |ds[1..]| ==> ds[1..][i] == ds[i + 1];
      WithoutSize(a, ds[1..]);
      if ds[0].before.Some? {
        var p := ds[0].before.value.path;
        var rest := Without(a, ds[1..]);
        WithoutAt(a, ds[1..], p);
        assert p in rest;
        assert rest == (rest - {p})[p := rest[p]];
      }
    }
  }

  lemma {:induction false} WithSize(a: Inventory, ds: seq<Difference>, b: Inventory)
    requires AfterPathsDiffer(ds) && PutsFrom(ds, b)
    requires forall i :: 0 <= i < |ds| && ds[i].after.Some? ==> ds[i].after.value.path !in a
    ensures |With(a, ds)| == |a| + Afters(ds)
  {
    if ds != [] {
      assert forall i :: 0 <= i < |ds[1..]| ==> ds[1..][i] == ds[i + 1];
      WithSize(a, ds[1..], b);
      if ds[0].after.Some? {
        WithAt(a, ds[1..], b, ds[0].after.value.path);
      }
    }
  }

  lemma {:induction false} SidesCount(ds: seq<Difference>)
    requires forall i :: 0 <= i < |ds| ==>
      (ds[i].before.None? <==> ds[i].kind.Added?) && (ds[i].after.None? <==> ds[i].kind.Removed?)
    ensures Befores(ds) == |ds| - Count(ds, Added) && Afters(ds) == |ds| - Count(ds, Removed)
  {
    if ds != [] {
      assert forall i :: 0 <= i < |ds[1..]| ==> ds[1..][i] == ds[i + 1];
      SidesCount(ds[1..]);
    }
  }

  lemma PathsDiffer(a: Inventory, b: Inventory, ds: seq<Difference>)
    requires Keyed(a) && Keyed(b) && Complete(a, b, ds)
    ensures BeforePathsDiffer(ds) && AfterPathsDiffer(ds)
  {
    forall i, j | 0 <= i < j < |ds|
      ensures Head(ds[i]) != Head(ds[j])
      ensures ds[i].after.Some? && ds[j].after.Some? ==> AfterPath(ds[i]) != AfterPath(ds[j])
      ensures ds[i].before.Some? ==> Head(ds[i]) == ds[i].before.value.path
      ensures ds[j].before.Some? ==> Head(ds[j]) == ds[j].before.value.path
    {
      assert ds[i] in ds && ds[j] in ds;
      HeadIsBefore(a, b, ds[i]);
      HeadIsBefore(a, b, ds[j]);
      LessAsymmetric(Head(ds[i]), Head(ds[j]));
      if ds[i].after.Some? && ds[j].after.Some? && AfterPath(ds[i]) == AfterPath(ds[j]) {
        AfterDetermines(a, b, ds[i], ds[j]);
      }
    }
  }

  /** Added minus removed is the change in the number of members. */
  lemma CountsBalance(a: Inventory, b: Inventory, ds: seq<Difference>)
    requires Keyed(a) && Keyed(b) && Complete(a, b, ds)
    ensures Count(ds, Added) - Count(ds, Removed) == |b| - |a|
  {
    PathsDiffer(a, b, ds);
    CompletePuts(a, b, ds);
    PatchIsExact(a, b, ds);
    forall i | 0 <= i < |ds| ensures ds[i].before.Some? ==> ds[i].before.value.path in a
                             ensures ds[i].after.Some? ==> ds[i].after.value.path !in Without(a, ds)
                             ensures ds[i].before.None? <==> ds[i].kind.Added?
                             ensures ds[i].after.None? <==> ds[i].kind.Removed?
    {
      assert IsDifference(a, b, ds[i]) by { assert ds[i] in ds; }
      if ds[i].after.Some? {
        WithoutAt(a, ds, ds[i].after.value.path);
        TakesPutsAt(a, b, ds, ds[i].after.value.path);
      }
    }
    WithoutSize(a, ds);
    WithSize(Without(a, ds), ds, b);
    SidesCount(ds);
  }
}

/**
What makes a migration case valid and a save accepted, said with quantifiers over families and decisions and not
through the validator's own helpers (src/name_atlas/cases.py).
*/
module CaseLaws {
  import opened Common
  import opened SnapshotDiff
  import opened SnapshotCompare
  import opened CaseRecord
  import opened CaseStore

  predicate Resolves(b: Binding) {
    b.action == Approved || b.action == Edited
  }

  predicate TurnsDown(b: Binding) {
    b.action == Refused || b.action == Unresolved
  }

  /** No family is listed twice, and none is decided twice. */
  predicate NothingTwice(c: Case) {
    && (forall i, j :: 0 <= i < j < |c.identity.families| ==>
      c.identity.families[i].familyId != c.identity.families[j].familyId)
    && (forall i, j :: 0 <= i < j < |c.decisions| ==> c.decisions[i].familyId != c.decisions[j].familyId)
  }

  /** The decision is about this family: a target for each of its roles if it resolves it, none otherwise. */
  predicate About(b: Binding, family: Family) {
    && b.familyId == family.familyId
    && if Resolves(b) then b.targets.Keys == family.roles && family.roles != {} else b.targets == map[]
  }

  predicate EachAboutAFamily(c: Case) {
    forall i :: 0 <= i < |c.decisions| ==>
      exists f :: 0 <= f < |c.identity.families| && About(c.decisions[i], c.identity.families[f])
  }

  /** Any two resolved targets differ, normalised and case-folded. */
  predicate TargetsFoldApart(decisions: seq<Binding>, u: Unicode) {
    forall i, j, r, s ::
      && 0 <= i < |decisions| && 0 <= j < |decisions| && Resolves(decisions[i]) && Resolves(decisions[j])
      && r in decisions[i].targets && s in decisions[j].targets && (i != j || r != s)
      ==> u.casefold(u.nfc(decisions[i].targets[r])) != u.casefold(u.nfc(decisions[j].targets[s]))
  }

  predicate DecidesFamily(c: Case, f: nat)
    requires f < |c.identity.families|
  {
    exists i :: 0 <= i < |c.decisions| && c.decisions[i].familyId == c.identity.families[f].familyId
  }

  /** Every family is decided, and every decision resolves its family. */
  predicate AllResolved(c: Case) {
    && (forall f :: 0 <= f < |c.identity.families| ==> DecidesFamily(c, f))
    && (forall i :: 0 <= i < |c.decisions| ==> Resolves(c.decisions[i]))
  }

  predicate SomeTurnedDown(c: Case) {
    exists i :: 0 <= i < |c.decisions| && TurnsDown(c.decisions[i])
  }

  /** The lifecycle a working case must carry. */
  predicate LifecycleMatches(c: Case) {
    && (c.lifecycle == ReadyToStage || c.lifecycle == HandoffReady ==> AllResolved(c))
    && (c.lifecycle == Blocked ==> !AllResolved(c) && SomeTurnedDown(c))
    && (c.lifecycle == Review ==> !AllResolved(c) && !SomeTurnedDown(c))
  }

  predicate PointersMatch(c: Case) {
    && (c.receipt.Some? <==> c.lifecycle == HandoffReady) && (c.handoffPath.Some? <==> c.lifecycle == HandoffReady)
    && (c.lifecycle == HandoffReady ==> c.stagePath.Some?)
  }

  /** A stale case has exactly one reason, any other none. */
  predicate StaleForOneReason(c: Case) {
    if c.lifecycle == Stale then c.scanBlocked <==> c.differences == [] else !c.scanBlocked && c.differences == []
  }

  // ----- the lists the validator works on -----

  lemma {:induction false} FamilyIdsAre(families: seq<Family>)
    ensures |FamilyIds(families)| == |families|
    ensures forall i :: 0 <= i < |families| ==> FamilyIds(families)[i] == families[i].familyId
  {
    if families != [] {
      FamilyIdsAre(families[1..]);
    }
  }

  lemma {:induction false} DecisionIdsAre(decisions: seq<Binding>)
    ensures |DecisionIds(decisions)| == |decisions|
    ensures forall i :: 0 <= i < |decisions| ==> DecisionIds(decisions)[i] == decisions[i].familyId
  {
    if decisions != [] {
      DecisionIdsAre(decisions[1..]);
    }
  }

  lemma NothingTwiceIff(c: Case)
    ensures NothingTwice(c) <==> NoRepeat(FamilyIds(c.identity.families)) && NoRepeat(DecisionIds(c.decisions))
  {
    FamilyIdsAre(c.identity.families);
    DecisionIdsAre(c.decisions);
  }

  lemma {:induction false} FamilyOfIff(families: seq<Family>, id: string)
    ensures FamilyOf(families, id).Some? ==>
      exists f :: 0 <= f < |families| && families[f].familyId == id && FamilyOf(families, id) == Some(families[f])
    ensures FamilyOf(families, id).None? ==> forall f :: 0 <= f < |families| ==> families[f].familyId != id
  {
    if families != [] && families[0].familyId != id {
      FamilyOfIff(families[1..], id);
      if FamilyOf(families, id).Some? {
        var f :| 0 <= f < |families[1..]| && families[1..][f].familyId == id
          && FamilyOf(families, id) == Some(families[1..][f]);
        assert families[f + 1] == families[1..][f];
      }
    }
  }

  lemma AboutIff(b: Binding, c: Case)
    requires NothingTwice(c)
    ensures DecisionFits(b, c.identity.families) <==>
      exists f :: 0 <= f < |c.identity.families| && About(b, c.identity.families[f])
  {
    var families := c.identity.families;
    FamilyOfIff(families, b.familyId);
    if FamilyOf(families, b.familyId).Some? {
      var f :| 0 <= f < |families| && families[f].familyId == b.familyId
        && FamilyOf(families, b.familyId) == Some(families[f]);
      assert Resolves(b) == ExportReady(b);
      assert DecisionFits(b, families) <==> About(b, families[f]);
      assert forall g :: 0 <= g < |families| && families[g].familyId == b.familyId ==> g == f;
    }
  }

  lemma DecidedIff(c: Case)
    requires EachAboutAFamily(c)
    ensures Decided(c.decisions, c.identity.families) <==> AllResolved(c)
  {
    var families, decisions := c.identity.families, c.decisions;
    FamilyIdsAre(families);
    DecisionIdsAre(decisions);
    if AllResolved(c) {
      forall id ensures id in Elements(DecisionIds(decisions)) <==> id in Elements(FamilyIds(families)) {
        if id in Elements(FamilyIds(families)) {
          var f :| 0 <= f < |families| && families[f].familyId == id;
          assert DecidesFamily(c, f);
          var i :| 0 <= i < |decisions| && decisions[i].familyId == id;
          assert DecisionIds(decisions)[i] == id;
        }
        if id in Elements(DecisionIds(decisions)) {
          var i :| 0 <= i < |decisions| && decisions[i].familyId == id;
          var f :| 0 <= f < |families| && About(decisions[i], families[f]);
          assert FamilyIds(families)[f] == id;
        }
      }
    }
    if Decided(decisions, families) {
      forall f | 0 <= f < |families| ensures DecidesFamily(c, f) {
        assert FamilyIds(families)[f] in Elements(FamilyIds(families));
        assert families[f].familyId in Elements(DecisionIds(decisions));
        var i :| 0 <= i < |decisions| && DecisionIds(decisions)[i] == families[f].familyId;
        assert decisions[i].familyId == families[f].familyId;
      }
    }
  }

  lemma FoldApartIff(decisions: seq<Binding>, u: Unicode)
    ensures TargetsUnique(decisions, u) <==> TargetsFoldApart(decisions, u)
  {
    CasefoldDecides(decisions, u);
  }

  /** Exactly these cases pass the validator. */
  lemma ValidIff(c: Case, u: Unicode)
    ensures Valid(c, u) <==>
      && c.opaqueChecksPass && c.identity.createdAt <= c.updatedAt && c.identity.families != []
      && ValidSnapshot(c.identity.snapshot) && CaseAccepts(c.differences, ByPath(c.identity.snapshot))
      && NothingTwice(c) && EachAboutAFamily(c) && TargetsFoldApart(c.decisions, u)
      && LifecycleMatches(c) && PointersMatch(c) && StaleForOneReason(c)
  {
    NothingTwiceIff(c);
    FoldApartIff(c.decisions, u);
    if NothingTwice(c) {
      forall i | 0 <= i < |c.decisions|
        ensures DecisionFits(c.decisions[i], c.identity.families) <==>
          exists f :: 0 <= f < |c.identity.families| && About(c.decisions[i], c.identity.families[f])
      {
        AboutIff(c.decisions[i], c);
      }
      if EachAboutAFamily(c) {
        LifecycleIff(c);
      }
    }
  }

  lemma LifecycleIff(c: Case)
    requires EachAboutAFamily(c)
    ensures LifecycleRules(c) <==> LifecycleMatches(c)
  {
    DecidedIff(c);
    assert AnyRefused(c.decisions) <==> SomeTurnedDown(c) by {
      assert forall i :: 0 <= i < |c.decisions| ==> (TurnsDown(c.decisions[i]) <==>
        c.decisions[i].action.Refused? || c.decisions[i].action.Unresolved?);
    }
  }

  // ----- what a save accepts -----

  /** A new case with families, built over a valid snapshot, is valid. */
  lemma NewCaseValid(c: Case, u: Unicode)
    requires IsNew(c) && c.identity.families != [] && NothingTwice(c)
    requires ValidSnapshot(c.identity.snapshot) && c.opaqueChecksPass && c.differences == [] && !c.scanBlocked
    ensures Valid(c, u)
  {
    ValidIff(c, u);
    assert BeforePaths([]) == [] && AfterPaths([]) == [] && Sorted([]) == [];
    assert !AllResolved(c) by {
      assert !DecidesFamily(c, 0);
    }
  }

  /** The record a mutation writes. */
  function Revised(c: Case, now: int): Case {
    c.(revision := c.revision + 1, updatedAt := now)
  }

  /** A save that creates is accepted exactly when there is no file yet and the record is at revision zero. */
  lemma CreationAcceptedIff(durable: Option<Case>, path: string, c: Case, now: int, u: Unicode)
    ensures
      var prepared := Prepare(durable, path, c, None, now, u);
      && (prepared.Ok? <==> c.identity.casePath == path && durable.None? && c.revision == 0)
      && (prepared.Ok? ==> prepared.value == c)
  {
  }

  /**
  A save that mutates is accepted exactly when it is one mutation of the valid record the file holds, made against
  that record's revision; it writes the record given, one revision on.
  */
  lemma MutationAcceptedIff(durable: Option<Case>, path: string, c: Case, expected: int, now: int, u: Unicode)
    ensures
      var prepared := Prepare(durable, path, c, Some(expected), now, u);
      && (prepared.Ok? <==>
        && expected == c.revision && c.identity.casePath == path && durable.Some?
        && durable.value.identity.casePath == path && Mutates(durable.value, Revised(c, now), u))
      && (prepared.Ok? ==> prepared.value == Revised(c, now))
  {
    if durable.Some? && Valid(durable.value, u) && Valid(Revised(c, now), u) {
      MutationOfValid(durable.value, path, c, expected, now, u);
    }
  }

  lemma MutationOfValid(current: Case, path: string, c: Case, expected: int, now: int, u: Unicode)
    requires Valid(current, u) && Valid(Revised(c, now), u)
    ensures
      var prepared := Prepare(Some(current), path, c, Some(expected), now, u);
      && (prepared.Ok? <==>
        && expected == c.revision == current.revision && c.identity.casePath == path
        && c.identity == current.identity
        && current.lifecycle != HandoffReady && current.lifecycle != Stale
        && (c.lifecycle == HandoffReady ==> current.lifecycle == ReadyToStage))
      && (prepared.Ok? ==> prepared.value == Revised(c, now))
  {
  }

  /** Why a save is refused, the first reason that applies. */
  lemma SaveRefusedBecause(durable: Option<Case>, path: string, c: Case, expected: Option<int>, now: int, u: Unicode)
    requires Prepare(durable, path, c, expected, now, u).Err?
    ensures
      var error := Prepare(durable, path, c, expected, now, u).error;
      var loads := durable.Some? && Valid(durable.value, u) && durable.value.identity.casePath == path;
      && (error == WriteError <==> c.identity.casePath != path)
      && (error == LoadError <==> c.identity.casePath == path && expected.Some? && !loads)
      && (error == FinalizedError <==>
        && c.identity.casePath == path && expected.Some? && loads
        && durable.value.revision == c.revision == expected.value
        && (durable.value.lifecycle == HandoffReady || durable.value.lifecycle == Stale))
      && (error == InvalidRecord ==> expected.Some? && loads && !Valid(Revised(c, now), u))
      && error != LockError
  {
  }

  /** What the case is in after its first decision. */
  function AfterFirst(c: Case, d: Binding): Lifecycle {
    if TurnsDown(d) then Blocked
    else if Resolves(d) && |c.identity.families| == 1 then ReadyToStage
    else Review
  }

  predicate OneTargetEach(d: Binding, u: Unicode) {
    forall r, s :: r in d.targets && s in d.targets && r != s ==>
      u.casefold(u.nfc(d.targets[r])) != u.casefold(u.nfc(d.targets[s]))
  }

  /** A new case takes any first decision about one of its families, and is then in the state the decision gives it. */
  lemma FirstDecisionAccepted(path: string, c: Case, f: nat, d: Binding, now: int, u: Unicode)
    requires Valid(c, u) && IsNew(c) && c.identity.casePath == path && now >= c.updatedAt
    requires f < |c.identity.families| && About(d, c.identity.families[f]) && OneTargetEach(d, u)
    ensures var decided := c.(decisions := [d], lifecycle := AfterFirst(c, d));
      Prepare(Some(c), path, decided, Some(0), now, u) == Ok(Revised(decided, now))
  {
    var decided := c.(decisions := [d], lifecycle := AfterFirst(c, d));
    FirstDecisionValid(c, Revised(decided, now), f, d, u);
    MutationOfValid(c, path, decided, 0, now, u);
  }

  lemma FirstDecisionValid(c: Case, next: Case, f: nat, d: Binding, u: Unicode)
    requires Valid(c, u) && IsNew(c) && f < |c.identity.families| && About(d, c.identity.families[f])
    requires OneTargetEach(d, u) && next.updatedAt >= c.updatedAt
    requires next == c.(
      decisions := [d], lifecycle := AfterFirst(c, d), revision := c.revision + 1, updatedAt := next.updatedAt)
    ensures Valid(next, u)
  {
    ValidIff(c, u);
    assert About(next.decisions[0], next.identity.families[f]);
    FirstDecides(next, d, f);
    ValidIff(next, u);
  }

  lemma FirstDecides(c: Case, d: Binding, f: nat)
    requires c.decisions == [d] && f < |c.identity.families| && About(d, c.identity.families[f]) && NothingTwice(c)
    ensures AllResolved(c) <==> Resolves(d) && |c.identity.families| == 1
    ensures SomeTurnedDown(c) <==> TurnsDown(d)
  {
    assert DecidesFamily(c, f) by {
      assert c.decisions[0].familyId == c.identity.families[f].familyId;
    }
    if |c.identity.families| > 1 {
      assert !DecidesFamily(c, if f == 0 then 1 else 0);
    }
    assert c.decisions[0] == d;
  }
}

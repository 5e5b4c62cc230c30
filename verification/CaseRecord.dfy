/**
The migration case: what its validator demands of a record (src/name_atlas/cases.py). Proposals,
evidence and decision cards are opaque: that they pass their own checks is a fact of the record.
*/
module CaseRecord {
  import opened Common
  import opened SnapshotDiff
  import opened SnapshotCompare

  /** The two Unicode mappings used to compare target paths. */
  datatype Unicode = Unicode(nfc: string -> string, casefold: string -> string)

  datatype Action = Approved | Edited | Refused | Pending | Unresolved

  datatype Binding = Binding(familyId: string, action: Action, targets: map<string, string>)

  datatype Family = Family(familyId: string, roles: set<string>)

  datatype Lifecycle = Review | ReadyToStage | HandoffReady | Stale | Blocked

  /** What a mutation may not change. */
  datatype Identity = Identity(
    caseId: string,
    createdAt: int,
    sourceRoot: string,
    snapshot: seq<Member>,
    families: seq<Family>,
    proposals: string,
    outputRoot: string,
    casePath: string)

  datatype Case = Case(
    identity: Identity,
    revision: nat,
    updatedAt: int,
    decisions: seq<Binding>,
    opaqueChecksPass: bool,
    differences: seq<Difference>,
    scanBlocked: bool,
    stagePath: Option<string>,
    handoffPath: Option<string>,
    receipt: Option<string>,
    lifecycle: Lifecycle)

  predicate ExportReady(b: Binding) {
    b.action.Approved? || b.action.Edited?
  }

  // ----- families and decisions -----

  function FamilyIds(families: seq<Family>): seq<string> {
    if families == [] then [] else [families[0].familyId] + FamilyIds(families[1..])
  }

  function DecisionIds(decisions: seq<Binding>): seq<string> {
    if decisions == [] then [] else [decisions[0].familyId] + DecisionIds(decisions[1..])
  }

  function FamilyOf(families: seq<Family>, id: string): Option<Family> {
    if families == [] then None else if families[0].familyId == id then Some(families[0])
      else FamilyOf(families[1..], id)
  }

  /** A decision is for a known family; an export-ready one gives exactly the family's roles a target. */
  predicate DecisionFits(b: Binding, families: seq<Family>) {
    var family := FamilyOf(families, b.familyId);
    && family.Some?
    && (ExportReady(b) ==> b.targets.Keys == family.value.roles && b.targets != map[])
    && (!ExportReady(b) ==> b.targets == map[])
  }

  predicate AllExportReady(decisions: seq<Binding>) {
    forall i :: 0 <= i < |decisions| ==> ExportReady(decisions[i])
  }

  predicate AnyRefused(decisions: seq<Binding>) {
    exists i :: 0 <= i < |decisions| && (decisions[i].action.Refused? || decisions[i].action.Unresolved?)
  }

  predicate Decided(decisions: seq<Binding>, families: seq<Family>) {
    Elements(DecisionIds(decisions)) == Elements(FamilyIds(families)) && AllExportReady(decisions)
  }

  function DerivedLifecycle(decisions: seq<Binding>, families: seq<Family>): Lifecycle {
    if Decided(decisions, families) then ReadyToStage
    else if AnyRefused(decisions) then Blocked
    else Review
  }

  // ----- target collisions -----

  /** The targets of the export-ready decisions, one (decision, role) at a time. */
  predicate TargetsDiffer(decisions: seq<Binding>, key: string -> string) {
    forall i, j, r, s ::
      && 0 <= i < |decisions| && 0 <= j < |decisions|
      && r in decisions[i].targets && s in decisions[j].targets
      && ExportReady(decisions[i]) && ExportReady(decisions[j])
      && (i != j || r != s)
      ==> key(decisions[i].targets[r]) != key(decisions[j].targets[s])
  }

  predicate TargetsUnique(decisions: seq<Binding>, u: Unicode) {
    && TargetsDiffer(decisions, (t: string) => t)
    && TargetsDiffer(decisions, u.nfc)
    && TargetsDiffer(decisions, (t: string) => u.casefold(u.nfc(t)))
  }

  /** Of the three comparisons the validator makes, the last alone decides. */
  lemma CasefoldDecides(decisions: seq<Binding>, u: Unicode)
    ensures TargetsUnique(decisions, u) <==> TargetsDiffer(decisions, (t: string) => u.casefold(u.nfc(t)))
  {
  }

  // ----- the validator -----

  predicate StaleRules(c: Case) {
    && (c.lifecycle.Stale? ==> (c.differences != [] || c.scanBlocked) && !(c.differences != [] && c.scanBlocked))
    && (!c.lifecycle.Stale? ==> c.differences == [] && !c.scanBlocked)
    && (ValidSnapshot(c.identity.snapshot) ==> CaseAccepts(c.differences, ByPath(c.identity.snapshot)))
  }

  predicate PointerRules(c: Case) {
    if c.lifecycle.HandoffReady? then c.receipt.Some? && c.stagePath.Some? && c.handoffPath.Some?
    else c.receipt.None? && c.handoffPath.None?
  }

  predicate LifecycleRules(c: Case) {
    && (c.lifecycle.Stale? || c.lifecycle.HandoffReady?
      || c.lifecycle == DerivedLifecycle(c.decisions, c.identity.families))
    && (c.lifecycle.ReadyToStage? || c.lifecycle.HandoffReady? ==> Decided(c.decisions, c.identity.families))
  }

  predicate DecisionRules(c: Case, u: Unicode) {
    && NoRepeat(FamilyIds(c.identity.families))
    && NoRepeat(DecisionIds(c.decisions))
    && (forall i :: 0 <= i < |c.decisions| ==> DecisionFits(c.decisions[i], c.identity.families))
    && TargetsUnique(c.decisions, u)
  }

  predicate Valid(c: Case, u: Unicode) {
    && c.identity.createdAt <= c.updatedAt && c.identity.families != []
    && ValidSnapshot(c.identity.snapshot)
    && c.opaqueChecksPass
    && StaleRules(c) && DecisionRules(c, u) && LifecycleRules(c) && PointerRules(c)
  }

  /** The unsaved case a package starts with. */
  predicate IsNew(c: Case) {
    && c.revision == 0 && c.lifecycle.Review? && c.decisions == [] && c.updatedAt == c.identity.createdAt
    && c.receipt.None? && c.stagePath.None? && c.handoffPath.None?
  }

  // ----- what a ready record guarantees -----

  lemma {:induction false} FamilyListed(families: seq<Family>, i: nat)
    requires i < |families|
    ensures families[i].familyId in FamilyIds(families)
  {
    if i > 0 {
      FamilyListed(families[1..], i - 1);
    }
  }

  lemma {:induction false} DecisionListed(decisions: seq<Binding>, id: string)
    requires id in DecisionIds(decisions)
    ensures exists i :: 0 <= i < |decisions| && decisions[i].familyId == id
  {
    if decisions[0].familyId == id {
      assert 0 < |decisions|;
    } else {
      DecisionListed(decisions[1..], id);
      var i :| 0 <= i < |decisions[1..]| && decisions[1..][i].familyId == id;
      assert decisions[i + 1].familyId == id;
    }
  }

  lemma {:induction false} DecisionIdAt(decisions: seq<Binding>, i: nat)
    requires i < |decisions|
    ensures |DecisionIds(decisions)| == |decisions| && DecisionIds(decisions)[i] == decisions[i].familyId
  {
    if i > 0 {
      DecisionIdAt(decisions[1..], i - 1);
    } else if |decisions| > 1 {
      DecisionIdAt(decisions[1..], 0);
    }
  }

  /** Exactly one decision names this family; it is export-ready and gives exactly the family's roles a target. */
  ghost predicate DecidedOnce(c: Case, family: Family) {
    exists i :: 0 <= i < |c.decisions|
      && c.decisions[i].familyId == family.familyId && ExportReady(c.decisions[i])
      && c.decisions[i].targets.Keys == family.roles
      && (forall j :: 0 <= j < |c.decisions| && j != i ==> c.decisions[j].familyId != family.familyId)
  }

  lemma {:induction false} FamilyIdAt(families: seq<Family>, i: nat)
    requires i < |families|
    ensures |FamilyIds(families)| == |families| && FamilyIds(families)[i] == families[i].familyId
  {
    if i > 0 {
      FamilyIdAt(families[1..], i - 1);
    } else if |families| > 1 {
      FamilyIdAt(families[1..], 0);
    }
  }

  /** With unique identifiers a family is found under its own. */
  lemma {:induction false} FamilyFound(families: seq<Family>, i: nat)
    requires NoRepeat(FamilyIds(families)) && i < |families|
    ensures FamilyOf(families, families[i].familyId) == Some(families[i])
  {
    if i > 0 {
      FamilyIdAt(families, 0);
      FamilyIdAt(families, i);
      assert FamilyIds(families)[1..] == FamilyIds(families[1..]);
      FamilyFound(families[1..], i - 1);
    }
  }

  lemma OneDecisionPerFamily(c: Case, u: Unicode, i: nat)
    requires Valid(c, u) && (c.lifecycle.ReadyToStage? || c.lifecycle.HandoffReady?) && i < |c.identity.families|
    ensures DecidedOnce(c, c.identity.families[i])
  {
    var family := c.identity.families[i];
    var id := family.familyId;
    FamilyListed(c.identity.families, i);
    FamilyFound(c.identity.families, i);
    assert id in Elements(FamilyIds(c.identity.families));
    assert id in Elements(DecisionIds(c.decisions));
    DecisionListed(c.decisions, id);
    var k :| 0 <= k < |c.decisions| && c.decisions[k].familyId == id;
    assert DecisionFits(c.decisions[k], c.identity.families);
    forall j | 0 <= j < |c.decisions| && j != k ensures c.decisions[j].familyId != id {
      DecisionIdAt(c.decisions, j);
      DecisionIdAt(c.decisions, k);
      assert DecisionIds(c.decisions)[Min(j, k)] != DecisionIds(c.decisions)[Max(j, k)];
    }
  }

  // ----- the targets of families -----

  function DecisionOf(decisions: seq<Binding>, id: string): Option<Binding> {
    if decisions == [] then None else if decisions[0].familyId == id then Some(decisions[0])
      else DecisionOf(decisions[1..], id)
  }

  /** Where the case sends this role of this family, if that is resolved. */
  function TargetOf(c: Case, family: Family, role: string): Option<string> {
    var decision := DecisionOf(c.decisions, family.familyId);
    if decision.Some? && ExportReady(decision.value) && role in decision.value.targets then
      Some(decision.value.targets[role])
    else None
  }

  lemma {:induction false} DecisionFound(decisions: seq<Binding>, id: string) returns (i: nat)
    requires DecisionOf(decisions, id).Some?
    ensures i < |decisions| && decisions[i] == DecisionOf(decisions, id).value && decisions[i].familyId == id
  {
    if decisions[0].familyId == id {
      i := 0;
    } else {
      var k := DecisionFound(decisions[1..], id);
      i := k + 1;
    }
  }

  lemma {:induction false} DecisionNotFound(decisions: seq<Binding>, i: nat)
    requires i < |decisions|
    ensures DecisionOf(decisions, decisions[i].familyId).Some?
  {
    if i > 0 {
      DecisionNotFound(decisions[1..], i - 1);
    }
  }

  /** Two targets that no comparison of the validator takes for one another. */
  predicate Apart(a: string, b: string, u: Unicode) {
    a != b && u.nfc(a) != u.nfc(b) && u.casefold(u.nfc(a)) != u.casefold(u.nfc(b))
  }

  /** A ready case resolves every role of every family. */
  lemma ReadyResolves(c: Case, u: Unicode, f: nat, r: string)
    requires Valid(c, u) && (c.lifecycle.ReadyToStage? || c.lifecycle.HandoffReady?)
    requires f < |c.identity.families| && r in c.identity.families[f].roles
    ensures TargetOf(c, c.identity.families[f], r).Some?
  {
    var family := c.identity.families[f];
    OneDecisionPerFamily(c, u, f);
    var i :| 0 <= i < |c.decisions| && c.decisions[i].familyId == family.familyId && ExportReady(c.decisions[i])
      && c.decisions[i].targets.Keys == family.roles
      && (forall j :: 0 <= j < |c.decisions| && j != i ==> c.decisions[j].familyId != family.familyId);
    DecisionNotFound(c.decisions, i);
    var k := DecisionFound(c.decisions, family.familyId);
    assert k == i;
  }

  /** In a valid case of any lifecycle the resolved targets of different families or roles are apart. */
  lemma ResolvedApart(c: Case, u: Unicode, f: nat, g: nat, r: string, s: string)
    requires Valid(c, u) && f < |c.identity.families| && g < |c.identity.families| && (f != g || r != s)
    requires TargetOf(c, c.identity.families[f], r).Some? && TargetOf(c, c.identity.families[g], s).Some?
    ensures Apart(TargetOf(c, c.identity.families[f], r).value, TargetOf(c, c.identity.families[g], s).value, u)
  {
    var families := c.identity.families;
    FamilyIdAt(families, f);
    FamilyIdAt(families, g);
    assert f != g ==> FamilyIds(families)[Min(f, g)] != FamilyIds(families)[Max(f, g)];
    var i := DecisionFound(c.decisions, families[f].familyId);
    var j := DecisionFound(c.decisions, families[g].familyId);
    TargetsApart(c.decisions, u, i, j, r, s);
  }

  lemma TargetsApart(decisions: seq<Binding>, u: Unicode, i: nat, j: nat, r: string, s: string)
    requires TargetsUnique(decisions, u) && i < |decisions| && j < |decisions| && (i != j || r != s)
    requires r in decisions[i].targets && s in decisions[j].targets && ExportReady(decisions[i])
      && ExportReady(decisions[j])
    ensures Apart(decisions[i].targets[r], decisions[j].targets[s], u)
  {
    var folded := (t: string) => u.casefold(u.nfc(t));
    var exact := (t: string) => t;
    assert TargetsDiffer(decisions, folded) && TargetsDiffer(decisions, exact);
    assert folded(decisions[i].targets[r]) != folded(decisions[j].targets[s]);
  }
}

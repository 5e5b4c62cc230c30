/**
The case writer over a shared file: its lock, `save`, and the duplicate checks that loop
(src/name_atlas/cases.py).
*/
module CaseWriter {
  import opened Common
  import opened CaseRecord
  import opened CaseStore

  /** How a write ends: abandoned, landed but reported as failed (the directory could not be synced), or done. */
  datatype Outcome = Abandoned | LandedUnreported | Written

  class CaseFile {
    var durable: Option<Case>
    var locked: bool

    constructor ()
      ensures durable == None && !locked
    {
      durable, locked := None, false;
    }
  }

  class MigrationCaseWriter {
    const path: string
    const file: CaseFile
    var holding: bool

    constructor (path: string, file: CaseFile)
      ensures this.path == path && this.file == file && !holding
    {
      this.path, this.file, holding := path, file, false;
    }

    /** The lock this writer believes it holds is the file's lock. */
    ghost predicate Valid()
      reads this, file
    {
      holding ==> file.locked
    }

    /** Non-blocking: fails when any writer holds the lock, and changes nothing then. */
    method Enter() returns (r: Result<(), StoreError>)
      requires Valid() && !holding
      modifies this, file
      ensures Valid() && file.durable == old(file.durable)
      ensures r.Ok? <==> !old(file.locked)
      ensures holding == r.Ok? && file.locked
    {
      if file.locked {
        return Err(LockError);
      }
      file.locked := true;
      holding := true;
      return Ok(());
    }

    method Exit()
      requires Valid()
      modifies this, file
      ensures Valid() && !holding && file.durable == old(file.durable)
      ensures file.locked == (old(file.locked) && !old(holding))
    {
      if holding {
        holding := false;
        file.locked := false;
      }
    }

    /** The refusals of `save`, in order, and the record it would write. */
    method Check(c: Case, expected: Option<int>, now: int, u: Unicode) returns (r: Result<Case, StoreError>)
      ensures r == Prepare(file.durable, path, c, expected, now, u)
    {
      if c.identity.casePath != path {
        return Err(WriteError);
      }
      if expected.None? {
        if file.durable.Some? || c.revision != 0 {
          return Err(RevisionError);
        }
        return Ok(c);
      }
      var loaded := Load(file.durable, path, u);
      if loaded.Err? {
        return loaded;
      }
      var current := loaded.value;
      if current.revision != expected.value || c.revision != expected.value {
        return Err(RevisionError);
      }
      if current.lifecycle.HandoffReady? || current.lifecycle.Stale? {
        return Err(FinalizedError);
      }
      if c.identity != current.identity || (c.lifecycle.HandoffReady? && !current.lifecycle.ReadyToStage?) {
        return Err(RevisionError);
      }
      var updated := c.(revision := expected.value + 1, updatedAt := now);
      if !CaseRecord.Valid(updated, u) {
        return Err(InvalidRecord);
      }
      return Ok(updated);
    }

    method Save(c: Case, expected: Option<int>, now: int, u: Unicode, outcome: Outcome)
      returns (r: Result<Case, StoreError>)
      requires Valid()
      modifies file
      ensures Valid() && file.locked == old(file.locked)
      ensures var prepared := if holding then Prepare(old(file.durable), path, c, expected, now, u) else Err(LockError);
        && (prepared.Err? ==> r == prepared && file.durable == old(file.durable))
        && (prepared.Ok? ==> r == (if outcome.Written? then prepared else Err(WriteError)))
        && (prepared.Ok? ==> file.durable == if outcome.Abandoned? then old(file.durable) else Some(prepared.value))
    {
      if !holding {
        return Err(LockError);
      }
      var checked := Check(c, expected, now, u);
      if checked.Err? {
        return checked;
      }
      if outcome.Abandoned? {
        return Err(WriteError);
      }
      file.durable := Some(checked.value);
      if outcome.LandedUnreported? {
        return Err(WriteError);
      }
      return checked;
    }
  }

  // ----- the duplicate checks -----

  /** Indexes decisions by family, stopping at a repeated one. */
  method UniqueRecords(decisions: seq<Binding>) returns (r: Result<map<string, Binding>, string>)
    ensures r.Ok? <==> forall i, j :: 0 <= i < j < |decisions| ==> decisions[i].familyId != decisions[j].familyId
    ensures r.Ok? ==> forall i :: 0 <= i < |decisions| ==>
      decisions[i].familyId in r.value && r.value[decisions[i].familyId] == decisions[i]
    ensures r.Ok? ==> forall id :: id in r.value ==> exists i :: 0 <= i < |decisions| && decisions[i].familyId == id
    ensures r.Err? ==> exists i, j ::
      0 <= i < j < |decisions| && decisions[i].familyId == decisions[j].familyId == r.error
  {
    var indexed: map<string, Binding> := map[];
    for n := 0 to |decisions|
      invariant forall i :: 0 <= i < n ==>
        decisions[i].familyId in indexed && indexed[decisions[i].familyId] == decisions[i]
      invariant forall id :: id in indexed ==> exists i :: 0 <= i < n && decisions[i].familyId == id
      invariant forall i, j :: 0 <= i < j < n ==> decisions[i].familyId != decisions[j].familyId
    {
      var identity := decisions[n].familyId;
      if identity in indexed {
        return Err(identity);
      }
      indexed := indexed[identity := decisions[n]];
    }
    return Ok(indexed);
  }

  ghost predicate KeysDiffer(targets: seq<string>, key: string -> string) {
    forall i, j :: 0 <= i < j < |targets| ==> key(targets[i]) != key(targets[j])
  }

  /** One comparison: as many distinct keys as targets. */
  method DistinctUnder(targets: seq<string>, key: string -> string) returns (distinct: bool)
    ensures distinct <==> KeysDiffer(targets, key)
  {
    var seen: set<string> := {};
    for n := 0 to |targets|
      invariant forall k :: k in seen <==> exists i :: 0 <= i < n && key(targets[i]) == k
      invariant forall i, j :: 0 <= i < j < n ==> key(targets[i]) != key(targets[j])
    {
      if key(targets[n]) in seen {
        return false;
      }
      seen := seen + {key(targets[n])};
    }
    return true;
  }

  /** Exact, normalised, then case-folded; accepting means no two targets agree under the last. */
  method RequireUniqueResolvedTargets(targets: seq<string>, u: Unicode) returns (accepted: bool)
    ensures accepted <==> forall i, j :: 0 <= i < j < |targets| ==>
      u.casefold(u.nfc(targets[i])) != u.casefold(u.nfc(targets[j]))
  {
    var comparisons: seq<string -> string> := [(t: string) => t, u.nfc, (t: string) => u.casefold(u.nfc(t))];
    for n := 0 to 3
      invariant forall k :: 0 <= k < n ==> KeysDiffer(targets, comparisons[k])
    {
      var distinct := DistinctUnder(targets, comparisons[n]);
      if !distinct {
        assert !KeysDiffer(targets, comparisons[n]);
        return false;
      }
    }
    assert KeysDiffer(targets, comparisons[2]);
    return true;
  }
}

/**
The case file and its writers (src/name_atlas/cases.py): one exclusive lock, a check of the mutation
against the durable record, then an atomic replacement that may fail before or after it lands.
*/
module CaseStore {
  import opened Common
  import opened SnapshotDiff
  import opened SnapshotCompare
  import opened CaseRecord

  datatype StoreError = LockError | WriteError | RevisionError | FinalizedError | LoadError | InvalidRecord

  function Load(durable: Option<Case>, path: string, u: Unicode): Result<Case, StoreError> {
    if durable.None? || !Valid(durable.value, u) || durable.value.identity.casePath != path then Err(LoadError)
    else Ok(durable.value)
  }

  /** Everything `save` does before it writes: the record it is about to write, or why it refuses. */
  function Prepare(durable: Option<Case>, path: string, c: Case, expected: Option<int>, now: int, u: Unicode)
    : Result<Case, StoreError>
  {
    if c.identity.casePath != path then Err(WriteError)
    else if expected.None? then
      if durable.Some? then Err(RevisionError)
      else if c.revision != 0 then Err(RevisionError)
      else Ok(c)
    else
      match Load(durable, path, u)
      case Err(e) => Err(e)
      case Ok(current) =>
        if current.revision != expected.value || c.revision != expected.value then Err(RevisionError)
        else if current.lifecycle.HandoffReady? || current.lifecycle.Stale? then Err(FinalizedError)
        else if c.identity != current.identity then Err(RevisionError)
        else if c.lifecycle.HandoffReady? && !current.lifecycle.ReadyToStage? then Err(RevisionError)
        else
          var updated := c.(revision := expected.value + 1, updatedAt := now);
          if Valid(updated, u) then Ok(updated) else Err(InvalidRecord)
  }

  // ----- runs -----

  /** A process holding the lock is idle or about to replace the file with a prepared record. */
  datatype Writer = Idle | Replacing(record: Case)

  /** `history`: every record the file has held, oldest first. `writers`: the processes that hold the lock. */
  datatype Store = Store(path: string, history: seq<Case>, writers: map<nat, Writer>)

  function Durable(s: Store): Option<Case> {
    if s.history == [] then None else Some(s.history[|s.history| - 1])
  }

  /** `Gives`: the process leaves the context or dies, at any point. `Fails`: the write is abandoned before it lands. */
  datatype Event =
    | Takes(pid: nat)
    | Gives(pid: nat)
    | Prepares(pid: nat, record: Case, expected: Option<int>, now: int)
    | Replaces(pid: nat)
    | Fails(pid: nat)

  function Next(s: Store, e: Event, u: Unicode): Store {
    match e
    case Takes(pid) => if s.writers == map[] then s.(writers := map[pid := Idle]) else s
    case Gives(pid) => s.(writers := s.writers - {pid})
    case Prepares(pid, record, expected, now) =>
      if pid in s.writers && s.writers[pid].Idle? && Prepare(Durable(s), s.path, record, expected, now, u).Ok?
      then s.(writers := s.writers[pid := Replacing(Prepare(Durable(s), s.path, record, expected, now, u).value)])
        else s
    case Replaces(pid) =>
      if pid in s.writers && s.writers[pid].Replacing?
      then s.(history := s.history + [s.writers[pid].record], writers := s.writers[pid := Idle]) else s
    case Fails(pid) => if pid in s.writers then s.(writers := s.writers[pid := Idle]) else s
  }

  function At(path: string, es: seq<Event>, i: nat, u: Unicode): Store
    requires i <= |es|
  {
    if i == 0 then Store(path, [], map[]) else Next(At(path, es, i - 1, u), es[i - 1], u)
  }

  // ----- invariants -----

  /** `next` is exactly one mutation of `current`. */
  ghost predicate Mutates(current: Case, next: Case, u: Unicode) {
    && next.revision == current.revision + 1
    && next.identity == current.identity
    && Valid(current, u) && Valid(next, u)
    && !current.lifecycle.HandoffReady? && !current.lifecycle.Stale?
    && (next.lifecycle.HandoffReady? ==> current.lifecycle.ReadyToStage?)
  }

  ghost predicate Follows(durable: Option<Case>, next: Case, u: Unicode) {
    if durable.None? then next.revision == 0 else Mutates(durable.value, next, u)
  }

  ghost predicate Chained(history: seq<Case>, u: Unicode) {
    && (history != [] ==> history[0].revision == 0)
    && forall k :: 0 < k < |history| ==> Mutates(history[k - 1], history[k], u)
  }

  ghost predicate Alone(writers: map<nat, Writer>) {
    forall p, q :: p in writers && q in writers ==> p == q
  }

  ghost predicate Inv(s: Store, u: Unicode) {
    && Alone(s.writers)
    && Chained(s.history, u)
    && forall pid :: pid in s.writers && s.writers[pid].Replacing? ==> Follows(Durable(s), s.writers[pid].record, u)
  }

  lemma PreparedFollows(durable: Option<Case>, path: string, c: Case, expected: Option<int>, now: int, u: Unicode)
    requires Prepare(durable, path, c, expected, now, u).Ok?
    ensures Follows(durable, Prepare(durable, path, c, expected, now, u).value, u)
  {
  }

  lemma PreparesKeeps(s: Store, pid: nat, record: Case, expected: Option<int>, now: int, u: Unicode)
    requires Inv(s, u)
    ensures Inv(Next(s, Prepares(pid, record, expected, now), u), u)
  {
    if Prepare(Durable(s), s.path, record, expected, now, u).Ok? {
      PreparedFollows(Durable(s), s.path, record, expected, now, u);
    }
  }

  lemma ReplacesKeeps(s: Store, pid: nat, u: Unicode)
    requires Inv(s, u)
    ensures Inv(Next(s, Replaces(pid), u), u)
  {
  }

  lemma NextKeeps(s: Store, e: Event, u: Unicode)
    requires Inv(s, u)
    ensures Inv(Next(s, e, u), u)
  {
    match e
    case Prepares(pid, record, expected, now) => PreparesKeeps(s, pid, record, expected, now, u);
    case Replaces(pid) => ReplacesKeeps(s, pid, u);
    case _ =>
  }

  lemma {:induction false} InvAlways(path: string, es: seq<Event>, i: nat, u: Unicode)
    requires i <= |es|
    ensures Inv(At(path, es, i, u), u)
  {
    if i > 0 {
      InvAlways(path, es, i - 1, u);
      NextKeeps(At(path, es, i - 1, u), es[i - 1], u);
    }
  }

  // ----- guarantees over all runs -----

  lemma {:induction false} ChainRevisions(history: seq<Case>, k: nat, u: Unicode)
    requires Chained(history, u) && k < |history|
    ensures history[k].revision == k && history[k].identity == history[0].identity
  {
    if k > 0 {
      ChainRevisions(history, k - 1, u);
      assert Mutates(history[k - 1], history[k], u);
    }
  }

  /**
  No update is lost: no two processes hold the file for mutation, and the record at place k of its history has
  revision k, carries the first record's identity and is one valid mutation of the record before it.
  */
  lemma NoUpdateLost(path: string, es: seq<Event>, i: nat, k: nat, u: Unicode)
    requires i <= |es| && k < |At(path, es, i, u).history|
    ensures Alone(At(path, es, i, u).writers)
    ensures var history := At(path, es, i, u).history;
      && history[k].revision == k && history[k].identity == history[0].identity
      && (k > 0 ==> Mutates(history[k - 1], history[k], u))
  {
    InvAlways(path, es, i, u);
    ChainRevisions(At(path, es, i, u).history, k, u);
  }

  /** Handoff-ready and stale records are never followed by another. */
  lemma TerminalIsLast(path: string, es: seq<Event>, i: nat, k: nat, u: Unicode)
    requires i <= |es| && k < |At(path, es, i, u).history|
    ensures var history := At(path, es, i, u).history;
      history[k].lifecycle.HandoffReady? || history[k].lifecycle.Stale? ==> k == |history| - 1
  {
    InvAlways(path, es, i, u);
    var history := At(path, es, i, u).history;
    if k + 1 < |history| {
      assert Mutates(history[k], history[k + 1], u);
    }
  }

  /** Every handoff-ready record was ready to stage one revision earlier. */
  ghost predicate HandedFromReady(history: seq<Case>) {
    forall k :: 0 <= k < |history| && history[k].lifecycle.HandoffReady? ==>
      k > 0 && Before(history, k).lifecycle.ReadyToStage?
  }

  ghost function Before(history: seq<Case>, k: int): Case
    requires 0 < k < |history|
  {
    history[k - 1]
  }

  /**
  Creation writes the record it is given, so the rule holds exactly when the first record was not
  already handoff-ready.
  */
  lemma HandoffOnlyFromReadyIff(path: string, es: seq<Event>, i: nat, u: Unicode)
    requires i <= |es|
    ensures var history := At(path, es, i, u).history;
      HandedFromReady(history) <==> (history == [] || !history[0].lifecycle.HandoffReady?)
  {
    InvAlways(path, es, i, u);
    var history := At(path, es, i, u).history;
    if history == [] || !history[0].lifecycle.HandoffReady? {
      forall k | 0 <= k < |history| && history[k].lifecycle.HandoffReady?
        ensures k > 0 && Before(history, k).lifecycle.ReadyToStage?
      {
        assert k > 0;
        assert Mutates(history[k - 1], history[k], u);
      }
    }
  }

  /** Three steps of one writer put any revision-zero record of the path in the file. */
  lemma CreatedAsGiven(path: string, c: Case, u: Unicode)
    requires c.revision == 0 && c.identity.casePath == path
    ensures At(path, [Takes(1), Prepares(1, c, None, 0), Replaces(1)], 3, u).history == [c]
  {
    var es := [Takes(1), Prepares(1, c, None, 0), Replaces(1)];
    assert Prepare(None, path, c, None, 0, u) == Ok(c);
    assert At(path, es, 0, u) == Store(path, [], map[]);
    assert At(path, es, 1, u) == Store(path, [], map[1 := Idle]);
    assert At(path, es, 2, u).writers[1] == Replacing(c);
    assert At(path, es, 3, u).history == [] + [c];
  }

  /** The failing side: whatever handoff-ready record is created for a path is simply written, and breaks the rule. */
  lemma CreatedHandedOff(path: string, c: Case, u: Unicode)
    requires c.revision == 0 && c.identity.casePath == path && c.lifecycle.HandoffReady?
    ensures var history := At(path, [Takes(1), Prepares(1, c, None, 0), Replaces(1)], 3, u).history;
      history == [c] && !HandedFromReady(history)
  {
    CreatedAsGiven(path, c, u);
    HandoffOnlyFromReadyIff(path, [Takes(1), Prepares(1, c, None, 0), Replaces(1)], 3, u);
  }

  /** From a new case, every handoff-ready record was ready to stage one revision earlier. */
  lemma NewCaseHandsOffFromReady(path: string, es: seq<Event>, i: nat, u: Unicode)
    requires i <= |es| && (At(path, es, i, u).history != [] ==> IsNew(At(path, es, i, u).history[0]))
    ensures HandedFromReady(At(path, es, i, u).history)
  {
    HandoffOnlyFromReadyIff(path, es, i, u);
  }

  /**
  Starting from a valid case every record the file ever holds is valid; and no invalid first record is ever
  built on.
  */
  lemma AlwaysValid(path: string, es: seq<Event>, i: nat, k: nat, u: Unicode)
    requires i <= |es| && k < |At(path, es, i, u).history|
    ensures var history := At(path, es, i, u).history;
      k > 0 || Valid(history[0], u) ==> Valid(history[k], u) && Valid(history[0], u)
  {
    InvAlways(path, es, i, u);
    var history := At(path, es, i, u).history;
    if k > 0 {
      assert Mutates(history[k - 1], history[k], u);
      assert Mutates(history[0], history[1], u);
    }
  }

  /**
  Whenever the file says ready or handoff-ready, every family has exactly one decision, export-ready and
  complete.
  */
  lemma ReadyMeansDecided(path: string, es: seq<Event>, i: nat, k: nat, f: nat, u: Unicode)
    requires i <= |es| && k < |At(path, es, i, u).history|
    requires Valid(At(path, es, i, u).history[0], u)
    requires At(path, es, i, u).history[k].lifecycle.ReadyToStage?
      || At(path, es, i, u).history[k].lifecycle.HandoffReady?
    requires f < |At(path, es, i, u).history[k].identity.families|
    ensures DecidedOnce(At(path, es, i, u).history[k], At(path, es, i, u).history[k].identity.families[f])
  {
    AlwaysValid(path, es, i, k, u);
    OneDecisionPerFamily(At(path, es, i, u).history[k], u, f);
  }

  /**
  From a valid first record on, in every record the file ever holds: the resolved targets of different
  families or roles are apart exactly, normalised and case-folded; and once the record is ready or
  handoff-ready every role of every family is resolved.
  */
  lemma TargetsAlwaysApart(path: string, es: seq<Event>, i: nat, k: nat, f: nat, g: nat, r: string, s: string,
    u: Unicode)
    requires i <= |es| && k < |At(path, es, i, u).history| && Valid(At(path, es, i, u).history[0], u)
    requires var families := At(path, es, i, u).history[k].identity.families;
      f < |families| && g < |families| && r in families[f].roles && s in families[g].roles && (f != g || r != s)
    ensures var c := At(path, es, i, u).history[k];
      var a, b := TargetOf(c, c.identity.families[f], r), TargetOf(c, c.identity.families[g], s);
      && (c.lifecycle.ReadyToStage? || c.lifecycle.HandoffReady? ==> a.Some? && b.Some?)
      && (a.Some? && b.Some? ==> Apart(a.value, b.value, u))
  {
    AlwaysValid(path, es, i, k, u);
    var c := At(path, es, i, u).history[k];
    if c.lifecycle.ReadyToStage? || c.lifecycle.HandoffReady? {
      ReadyResolves(c, u, f, r);
      ReadyResolves(c, u, g, s);
    }
    if TargetOf(c, c.identity.families[f], r).Some? && TargetOf(c, c.identity.families[g], s).Some? {
      ResolvedApart(c, u, f, g, r, s);
    }
  }
}

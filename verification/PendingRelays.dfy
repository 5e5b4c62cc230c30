/**
The in-memory registry of relay calls that wait for the companion
(`PendingRelayRegistry` in gateway/src/device-session.ts). Promises and timers are numbered in
order of creation; a promise is the list of settlements asked of it.
*/
module PendingRelays {
  import opened Common

  /** `Lost`: the object was restarted, and the handler that waited died with it. */
  datatype Settlement = Resolved(response: nat) | Rejected(code: string) | Lost

  datatype Entry = Entry(fingerprint: string, promise: nat)

  /** `timers`: armed timers by number, each with the request identifier its callback deletes. */
  datatype Registry = Registry(
    entries: map<string, Entry>,
    promises: seq<seq<Settlement>>,
    timers: map<nat, string>)

  const EMPTY := Registry(map[], [], map[])
  const TIMEOUT := Rejected("companion_timeout")

  function Settle(promises: seq<seq<Settlement>>, p: nat, s: Settlement): seq<seq<Settlement>> {
    if p < |promises| then promises[p := promises[p] + [s]] else promises
  }

  datatype Begun = Conflict | Joined(promise: nat) | Created(promise: nat)

  /** The timer of a call carries the number of its promise: both are made in the same breath. */
  function Opened(g: Registry, requestId: string, fingerprint: string): (Registry, Begun) {
    if requestId in g.entries then
      var existing := g.entries[requestId];
      if existing.fingerprint != fingerprint then (g, Conflict) else (g, Joined(existing.promise))
    else
      var p := |g.promises|;
      (Registry(
        g.entries[requestId := Entry(fingerprint, p)],
        g.promises + [[]],
        g.timers[p := requestId]),
       Created(p))
  }

  /** Clear the timer, delete the entry, settle the promise; nothing when there is no entry. */
  function Finished(g: Registry, requestId: string, s: Settlement): Registry {
    if requestId !in g.entries then g
    else
      var p := g.entries[requestId].promise;
      Registry(g.entries - {requestId}, Settle(g.promises, p, s), g.timers - {p})
  }

  /** A timer callback deletes by request identifier and rejects the promise it was made for. */
  function Fired(g: Registry, timer: nat): Registry {
    if timer !in g.timers then g
    else Registry(g.entries - {g.timers[timer]}, Settle(g.promises, timer, TIMEOUT), g.timers - {timer})
  }

  function FinishedAll(g: Registry, ids: seq<string>, s: Settlement): Registry {
    if ids == [] then g else Finished(FinishedAll(g, ids[..|ids| - 1], s), ids[|ids| - 1], s)
  }

  /** A restarted object begins with an empty registry; whatever waited is lost. */
  function Abandoned(g: Registry): Registry {
    Registry(map[], Forsaken(g.promises), map[])
  }

  function Forsaken(promises: seq<seq<Settlement>>): seq<seq<Settlement>> {
    seq(|promises|, p requires 0 <= p < |promises| => if promises[p] == [] then [Lost] else promises[p])
  }

  // ----- the invariant -----

  /** Each promise is waiting in the map with its timer armed, or settled once with its timer gone. */
  ghost predicate Consistent(g: Registry) {
    && (forall id :: id in g.entries ==>
      var p := g.entries[id].promise;
      p < |g.promises| && g.promises[p] == [] && p in g.timers && g.timers[p] == id)
    && (forall p :: p in g.timers ==> g.timers[p] in g.entries && g.entries[g.timers[p]].promise == p)
    && (forall p :: 0 <= p < |g.promises| ==> |g.promises[p]| <= 1)
    && (forall p :: 0 <= p < |g.promises| && g.promises[p] == [] ==> p in g.timers)
  }

  datatype Call =
    | BeginCall(requestId: string, fingerprint: string)
    | ResolveCall(requestId: string, response: nat)
    | CancelCall(requestId: string, code: string)
    | RejectAllCall(code: string)
    | TimerCall(timer: nat)

  /** `rejectAll` cancels over a copy of the keys; their order is whatever the map gives. */
  function Do(g: Registry, call: Call, keys: seq<string>): Registry {
    match call
    case BeginCall(id, fingerprint) => Opened(g, id, fingerprint).0
    case ResolveCall(id, response) => Finished(g, id, Resolved(response))
    case CancelCall(id, code) => Finished(g, id, Rejected(code))
    case RejectAllCall(code) => FinishedAll(g, keys, Rejected(code))
    case TimerCall(timer) => Fired(g, timer)
  }

  lemma FinishValid(g: Registry, id: string, s: Settlement)
    requires Consistent(g)
    ensures Consistent(Finished(g, id, s))
  {
  }

  lemma AbandonedValid(g: Registry)
    requires Consistent(g)
    ensures Consistent(Abandoned(g)) && Later(g, Abandoned(g)) && |Abandoned(g).promises| == |g.promises|
  {
  }

  lemma FinishedAllLast(g: Registry, ids: seq<string>, s: Settlement)
    requires ids != []
    ensures FinishedAll(g, ids, s) == Finished(FinishedAll(g, ids[..|ids| - 1], s), ids[|ids| - 1], s)
  {
  }

  lemma {:induction false} FinishAllValid(g: Registry, ids: seq<string>, s: Settlement)
    requires Consistent(g)
    ensures Consistent(FinishedAll(g, ids, s))
  {
    if ids != [] {
      var before, id := FinishedAll(g, ids[..|ids| - 1], s), ids[|ids| - 1];
      FinishAllValid(g, ids[..|ids| - 1], s);
      FinishValid(before, id, s);
      FinishedAllLast(g, ids, s);
    }
  }

  lemma {:induction false} FinishedAllEntries(g: Registry, ids: seq<string>, s: Settlement)
    ensures FinishedAll(g, ids, s).entries == g.entries - Elements(ids)
  {
    if ids != [] {
      var front, id := ids[..|ids| - 1], ids[|ids| - 1];
      FinishedAllEntries(g, front, s);
      FinishedAllLast(g, ids, s);
      ElementsSnoc(front, id);
      assert ids == front + [id];
    }
  }

  /** One identifier finished: what happens to one promise. */
  lemma FinishedSettles(g: Registry, id: string, s: Settlement, p: nat)
    requires Consistent(g) && p < |g.promises|
    ensures var after := Finished(g, id, s);
      && |after.promises| == |g.promises|
      && (p in after.timers <==> p in g.timers && g.timers[p] != id)
      && (p in after.timers ==> after.timers[p] == g.timers[p])
      && after.promises[p] == if p in g.timers && g.timers[p] == id then [s] else g.promises[p]
  {
  }

  /** Cancelling a list of identifiers settles exactly the promises that wait under one of them. */
  lemma {:induction false} FinishedAllSettles(g: Registry, ids: seq<string>, s: Settlement, p: nat)
    requires Consistent(g) && p < |g.promises|
    ensures var after := FinishedAll(g, ids, s);
      && |after.promises| == |g.promises|
      && (p in after.timers <==> p in g.timers && g.timers[p] !in ids)
      && (p in after.timers ==> after.timers[p] == g.timers[p])
      && after.promises[p] == if p in g.timers && g.timers[p] in ids then [s] else g.promises[p]
  {
    if ids != [] {
      var front, id := ids[..|ids| - 1], ids[|ids| - 1];
      FinishedAllSettles(g, front, s, p);
      FinishAllValid(g, front, s);
      FinishedSettles(FinishedAll(g, front, s), id, s, p);
      FinishedAllLast(g, ids, s);
      assert forall x :: x in ids <==> x in front || x == id;
    }
  }

  lemma FinishedAllRejects(g: Registry, ids: seq<string>, s: Settlement)
    requires Consistent(g) && Elements(ids) == g.entries.Keys
    ensures var after := FinishedAll(g, ids, s);
      && after.entries == map[] && after.timers == map[] && |after.promises| == |g.promises|
      && forall p :: 0 <= p < |g.promises| ==> after.promises[p] == if g.promises[p] == [] then [s] else g.promises[p]
  {
    var after := FinishedAll(g, ids, s);
    FinishAllValid(g, ids, s);
    FinishedAllEntries(g, ids, s);
    FinishedAllCount(g, ids, s);
    TimersNeedEntries(after);
    forall p | 0 <= p < |g.promises|
      ensures after.promises[p] == if g.promises[p] == [] then [s] else g.promises[p]
    {
      FinishedAllSettles(g, ids, s, p);
      assert g.promises[p] == [] ==> g.timers[p] in Elements(ids);
    }
  }

  lemma TimersNeedEntries(g: Registry)
    requires Consistent(g)
    ensures g.entries == map[] ==> g.timers == map[]
  {
  }

  lemma FinishedAllSnoc(g: Registry, ids: seq<string>, id: string, s: Settlement)
    ensures FinishedAll(g, ids + [id], s) == Finished(FinishedAll(g, ids, s), id, s)
  {
  }

  lemma {:induction false} FinishedAllCount(g: Registry, ids: seq<string>, s: Settlement)
    ensures |FinishedAll(g, ids, s).promises| == |g.promises|
  {
    if ids != [] {
      FinishedAllCount(g, ids[..|ids| - 1], s);
    }
  }

  /**
  A firing timer always finds its own entry, never a newer one under the same identifier: it does
  exactly what cancelling that identifier with a timeout would do.
  */
  lemma FireIsCancel(g: Registry, timer: nat)
    requires Consistent(g) && timer in g.timers
    ensures g.timers[timer] in g.entries && g.entries[g.timers[timer]].promise == timer
    ensures Fired(g, timer) == Finished(g, g.timers[timer], TIMEOUT)
  {
  }

  lemma DoValid(g: Registry, call: Call, keys: seq<string>)
    requires Consistent(g)
    ensures Consistent(Do(g, call, keys))
  {
    match call
    case BeginCall(id, fingerprint) =>
    case ResolveCall(id, response) => FinishValid(g, id, Resolved(response));
    case CancelCall(id, code) => FinishValid(g, id, Rejected(code));
    case RejectAllCall(code) => FinishAllValid(g, keys, Rejected(code));
    case TimerCall(timer) =>
      if timer in g.timers {
        FireIsCancel(g, timer);
        FinishValid(g, g.timers[timer], TIMEOUT);
      }
  }

  /** What a later state keeps: promises stay, and a settlement is never taken back or changed. */
  ghost predicate Later(a: Registry, b: Registry) {
    |a.promises| <= |b.promises| && forall p :: 0 <= p < |a.promises| ==> a.promises[p] <= b.promises[p]
  }

  lemma {:induction false} FinishAllLater(g: Registry, ids: seq<string>, s: Settlement)
    ensures Later(g, FinishedAll(g, ids, s))
  {
    if ids != [] {
      FinishAllLater(g, ids[..|ids| - 1], s);
    }
  }

  function After(calls: seq<(Call, seq<string>)>, i: nat): Registry
    requires i <= |calls|
  {
    if i == 0 then EMPTY else Do(After(calls, i - 1), calls[i - 1].0, calls[i - 1].1)
  }

  lemma DoLater(g: Registry, call: Call, keys: seq<string>)
    ensures Later(g, Do(g, call, keys))
  {
    if call.RejectAllCall? {
      FinishAllLater(g, keys, Rejected(call.code));
    }
  }

  lemma LaterTransitive(a: Registry, b: Registry, c: Registry)
    requires Later(a, b) && Later(b, c)
    ensures Later(a, c)
  {
  }

  lemma {:induction false} ConsistentAlways(calls: seq<(Call, seq<string>)>, i: nat)
    requires i <= |calls|
    ensures Consistent(After(calls, i))
  {
    if i > 0 {
      ConsistentAlways(calls, i - 1);
      DoValid(After(calls, i - 1), calls[i - 1].0, calls[i - 1].1);
    }
  }

  /** Over every run each promise is settled at most once, and unsettled exactly while it waits in the map. */
  lemma {:induction false} SettledOnce(calls: seq<(Call, seq<string>)>, i: nat, j: nat)
    requires i <= j <= |calls|
    ensures Consistent(After(calls, j)) && Later(After(calls, i), After(calls, j))
    decreases j
  {
    ConsistentAlways(calls, j);
    if i < j {
      SettledOnce(calls, i, j - 1);
      var before := After(calls, j - 1);
      DoLater(before, calls[j - 1].0, calls[j - 1].1);
      LaterTransitive(After(calls, i), before, Do(before, calls[j - 1].0, calls[j - 1].1));
    }
  }

  /** A retry joins the waiting call; other content under its identifier conflicts; otherwise a new call waits. */
  lemma OpensJoinsOrConflicts(g: Registry, id: string, fingerprint: string)
    ensures
      var (after, begun) := Opened(g, id, fingerprint);
      var p := |g.promises|;
      && (id in g.entries && g.entries[id].fingerprint == fingerprint ==>
        after == g && begun == Joined(g.entries[id].promise))
      && (id in g.entries && g.entries[id].fingerprint != fingerprint ==> after == g && begun == Conflict)
      && (id !in g.entries ==>
        && begun == Created(p) && |after.promises| == p + 1 && after.promises[p] == []
        && after.entries == g.entries[id := Entry(fingerprint, p)] && after.timers == g.timers[p := id])
  {
  }

  /** A response settles the waiting call of its identifier and no other. */
  lemma ResolveSettlesOwnCall(g: Registry, id: string, response: nat, p: nat)
    requires Consistent(g) && p < |g.promises|
    ensures var after := Finished(g, id, Resolved(response));
      after.promises[p] != g.promises[p] <==> id in g.entries && g.entries[id].promise == p
  {
  }

  // ----- the registry as the session object keeps it -----

  class PendingRelayRegistry {
    var entries: map<string, Entry>
    var promises: seq<seq<Settlement>>
    var timers: map<nat, string>

    function View(): Registry
      reads this
    {
      Registry(entries, promises, timers)
    }

    ghost predicate Valid()
      reads this
    {
      Consistent(View())
    }

    constructor ()
      ensures View() == EMPTY && Valid()
    {
      entries, promises, timers := map[], [], map[];
    }

    method Begin(requestId: string, fingerprint: string) returns (begun: Begun)
      requires Valid()
      modifies this
      ensures (View(), begun) == Opened(old(View()), requestId, fingerprint)
      ensures Valid()
    {
      if requestId in entries {
        var existing := entries[requestId];
        if existing.fingerprint != fingerprint {
          return Conflict;
        }
        return Joined(existing.promise);
      }
      var promise := |promises|;
      promises := promises + [[]];
      timers := timers[promise := requestId];
      entries := entries[requestId := Entry(fingerprint, promise)];
      begun := Created(promise);
      DoValid(old(View()), BeginCall(requestId, fingerprint), []);
    }

    method Resolve(requestId: string, response: nat) returns (found: bool)
      requires Valid()
      modifies this
      ensures View() == Finished(old(View()), requestId, Resolved(response))
      ensures found <==> requestId in old(entries)
      ensures Valid()
    {
      if requestId !in entries {
        return false;
      }
      var pending := entries[requestId];
      timers := timers - {pending.promise};
      entries := entries - {requestId};
      promises := promises[pending.promise := promises[pending.promise] + [Resolved(response)]];
      FinishValid(old(View()), requestId, Resolved(response));
      return true;
    }

    method Cancel(requestId: string, code: string)
      requires Valid()
      modifies this
      ensures View() == Finished(old(View()), requestId, Rejected(code))
      ensures Valid()
    {
      if requestId !in entries {
        return;
      }
      var pending := entries[requestId];
      timers := timers - {pending.promise};
      entries := entries - {requestId};
      promises := promises[pending.promise := promises[pending.promise] + [Rejected(code)]];
      FinishValid(old(View()), requestId, Rejected(code));
    }

    /** Afterwards nothing waits, no timer is armed, and exactly the waiting promises were rejected. */
    method RejectAll(code: string)
      requires Valid()
      modifies this
      ensures Valid() && entries == map[] && timers == map[] && |promises| == |old(promises)|
      ensures forall p :: 0 <= p < |promises| ==>
        promises[p] == if old(promises)[p] == [] then [Rejected(code)] else old(promises)[p]
    {
      var keys := entries.Keys;
      ghost var finished: seq<string> := [];
      while keys != {}
        invariant View() == FinishedAll(old(View()), finished, Rejected(code)) && Valid()
        invariant keys == entries.Keys
        invariant forall id :: id in old(entries) <==> id in keys || id in finished
        decreases |keys|
      {
        var id :| id in keys;
        FinishedAllSnoc(old(View()), finished, id, Rejected(code));
        Cancel(id, code);
        keys, finished := keys - {id}, finished + [id];
      }
      assert Elements(finished) == old(View()).entries.Keys;
      FinishedAllRejects(old(View()), finished, Rejected(code));
    }

    method Fire(timer: nat)
      requires Valid() && timer in timers
      modifies this
      ensures View() == Fired(old(View()), timer)
      ensures Valid()
    {
      var requestId := timers[timer];
      timers := timers - {timer};
      entries := entries - {requestId};
      promises := promises[timer := promises[timer] + [TIMEOUT]];
      DoValid(old(View()), TimerCall(timer), []);
    }
  }
}

/** The supervisor object and its retry loop (src/name_atlas/foldweave_companion_supervisor.py). */
module CompanionSupervisor {
  import opened Common
  import opened SupervisorSteps

  /** The advisory lock file shared by every supervisor of one installation. */
  class RuntimeLock {
    var held: bool

    constructor ()
      ensures !held
    {
      held := false;
    }
  }

  class FoldweaveCompanionSupervisor {
    const lock: RuntimeLock
    var controller: Option<nat>
    var ownership: bool
    var applicationRunning: bool
    var generation: nat
    var connection: Connection

    function View(): Supervisor
      reads this
    {
      Supervisor(controller, ownership, applicationRunning, generation, connection)
    }

    /** What it owns, it holds. */
    ghost predicate Valid()
      reads this, lock
    {
      ownership ==> lock.held
    }

    constructor (lock: RuntimeLock)
      ensures this.lock == lock && View() == IDLE && Valid()
    {
      this.lock := lock;
      controller, ownership, applicationRunning, generation, connection := None, false, false, 0, Disconnected;
    }

    method AcquireOwnership() returns (acquired: bool)
      requires Valid()
      modifies this`ownership, lock
      ensures Valid() && acquired == CanOwn(old(View()), !old(lock.held))
      ensures ownership == (old(ownership) || acquired) && lock.held == (old(lock.held) || acquired)
    {
      if ownership {
        return true;
      }
      if lock.held {
        return false;
      }
      lock.held := true;
      ownership := true;
      return true;
    }

    method EnsureController(alive: bool, task: nat)
      modifies this`controller, this`generation, this`connection
      ensures View() == Ensure(old(View()), alive, task)
    {
      if controller.Some? && alive {
        return;
      }
      generation := generation + 1;
      connection := Reconnecting;
      controller := Some(task);
    }

    method DetachController() returns (task: Option<nat>, owned: bool)
      requires Valid()
      modifies this
      ensures Valid() && View() == Detach(old(View())) && task == old(controller) && owned == old(ownership)
    {
      task, owned := controller, ownership;
      controller, ownership := None, false;
      generation := generation + 1;
      connection := Disconnected;
    }

    /** False when another runtime owns the installation; the application is then not running. */
    method Start(configured: bool, alive: bool, task: nat) returns (started: bool)
      requires Valid()
      modifies this, lock
      ensures Valid() && View() == SupervisorSteps.Start(old(View()), configured, !old(lock.held), alive, task)
      ensures started == (!configured || CanOwn(old(View()), !old(lock.held)))
      ensures lock.held == (old(lock.held) || ownership)
    {
      applicationRunning := true;
      if configured {
        started := AcquireOwnership();
        if !started {
          applicationRunning := false;
          return;
        }
        EnsureController(alive, task);
      } else {
        connection := Disconnected;
        started := true;
      }
    }

    /** The task to cancel and the lock to release once it is done, when the pairing is gone. */
    method PairingStateChanged(configured: bool, alive: bool, task: nat) returns (stop: Option<nat>, release: bool)
      requires Valid()
      modifies this, lock
      ensures Valid() && View() == Changed(old(View()), configured, !old(lock.held), alive, task)
      ensures (stop, release) ==
        if Detaches(old(View()), configured) then (old(controller), old(ownership)) else (None, false)
      ensures lock.held == (old(lock.held) || ownership)
    {
      stop, release := None, false;
      if !applicationRunning {
        return;
      }
      if configured {
        var acquired := AcquireOwnership();
        if acquired {
          EnsureController(alive, task);
        }
      } else {
        stop, release := DetachController();
      }
    }

    /** What a task does last. */
    method FinalWrite(ofGeneration: nat)
      requires Valid()
      modifies this`connection
      ensures Valid()
      ensures View() ==
        if ofGeneration == old(generation) then old(View()).(connection := Disconnected) else old(View())
    {
      if ofGeneration == generation {
        connection := Disconnected;
      }
    }
  }

  // ----- the retry loop -----

  /** One turn of the loop: is there a pairing before and after the runtime ran, and was the wait cut short. */
  datatype Round = Round(configuredBefore: bool, configuredAfter: bool, woke: bool)

  /** How many waits in a row before this one ran their full time. */
  function Streak(rounds: seq<Round>, k: nat): nat
    requires k <= |rounds|
  {
    if k == 0 || rounds[k - 1].woke then 0 else 1 + Streak(rounds, k - 1)
  }

  function Doubled(delay: real, times: nat): real {
    if times == 0 then delay else Doubled(delay, times - 1) * 2.0
  }

  function Capped(delay: real, maximum: real): real {
    if delay < maximum then delay else maximum
  }

  lemma {:induction false} CapAfterDoubling(initial: real, maximum: real, times: nat)
    requires 0.0 < initial <= maximum
    ensures 0.0 < Doubled(initial, times)
    ensures Capped(Capped(Doubled(initial, times), maximum) * 2.0, maximum)
      == Capped(Doubled(initial, times + 1), maximum)
  {
    if times > 0 {
      CapAfterDoubling(initial, maximum, times - 1);
    }
  }

  function NextDelay(delay: real, woke: bool, initial: real, maximum: real): real {
    if woke then initial else Capped(delay * 2.0, maximum)
  }

  lemma NextDelayStreak(rounds: seq<Round>, k: nat, initial: real, maximum: real)
    requires 0.0 < initial <= maximum && k < |rounds|
    ensures NextDelay(Capped(Doubled(initial, Streak(rounds, k)), maximum), rounds[k].woke, initial, maximum)
         == Capped(Doubled(initial, Streak(rounds, k + 1)), maximum)
  {
  }

  /** The delay offered at each wait is the initial one doubled once per full wait since the last wake, and capped. */
  method Supervise(rounds: seq<Round>, initial: real, maximum: real) returns (delays: seq<real>)
    requires 0.0 < initial <= maximum
    ensures |delays| <= |rounds|
    ensures forall k :: 0 <= k < |delays| ==> rounds[k].configuredBefore && rounds[k].configuredAfter
    ensures |delays| < |rounds| ==> !(rounds[|delays|].configuredBefore && rounds[|delays|].configuredAfter)
    ensures forall k :: 0 <= k < |delays| ==> delays[k] == Capped(Doubled(initial, Streak(rounds, k)), maximum)
  {
    delays := [];
    var delay := initial;
    for k := 0 to |rounds|
      invariant |delays| == k
      invariant forall i :: 0 <= i < k ==> rounds[i].configuredBefore && rounds[i].configuredAfter
      invariant forall i :: 0 <= i < k ==> delays[i] == Capped(Doubled(initial, Streak(rounds, i)), maximum)
      invariant delay == Capped(Doubled(initial, Streak(rounds, k)), maximum)
    {
      if !rounds[k].configuredBefore {
        return;
      }
      if !rounds[k].configuredAfter {
        return;
      }
      delays := delays + [delay];
      NextDelayStreak(rounds, k, initial, maximum);
      delay := NextDelay(delay, rounds[k].woke, initial, maximum);
    }
  }
}

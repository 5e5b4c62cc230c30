/**
Supervisors of the companion runtime on one machine (src/name_atlas/foldweave_companion_supervisor.py).
Several may share one runtime lock. The sections under a supervisor's own lock are atomic; detaching a
controller and cancelling its task is one step, and the runtime is taken to let cancellation through.
*/
module SupervisorSteps {
  import opened Common

  datatype Connection = Disconnected | Reconnecting

  datatype Supervisor = Supervisor(
    controller: Option<nat>,
    ownership: bool,
    applicationRunning: bool,
    generation: nat,
    connection: Connection)

  const IDLE := Supervisor(None, false, false, 0, Disconnected)

  // ----- the sections under the supervisor's lock -----

  /** `alive`: the controller's task is not done. A new controller task is started only when there is none alive. */
  function Ensure(s: Supervisor, alive: bool, task: nat): Supervisor {
    if s.controller.Some? && alive then s
    else s.(controller := Some(task), generation := s.generation + 1, connection := Reconnecting)
  }

  /** `free`: nobody holds the runtime lock. The lock is kept if already owned. */
  predicate CanOwn(s: Supervisor, free: bool) {
    s.ownership || free
  }

  function Start(s: Supervisor, configured: bool, free: bool, alive: bool, task: nat): Supervisor {
    if !configured then s.(applicationRunning := true, connection := Disconnected)
    else if !CanOwn(s, free) then s.(applicationRunning := false)
    else Ensure(s.(applicationRunning := true, ownership := true), alive, task)
  }

  function Detach(s: Supervisor): Supervisor {
    s.(controller := None, ownership := false, generation := s.generation + 1, connection := Disconnected)
  }

  predicate Detaches(s: Supervisor, configured: bool) {
    s.applicationRunning && !configured
  }

  function Changed(s: Supervisor, configured: bool, free: bool, alive: bool, task: nat): Supervisor {
    if !s.applicationRunning then s
    else if !configured then Detach(s)
    else if !CanOwn(s, free) then s
    else Ensure(s.(ownership := true), alive, task)
  }

  // ----- the machine -----

  datatype Phase = Running | Cancelling | Done

  datatype Task = Task(owner: nat, generation: nat, phase: Phase)

  /** A caller that detached a controller and is waiting for its task before it releases what it took. */
  datatype Waiting = Waiting(task: Option<nat>, ownsLock: bool)

  datatype Holder = BySupervisor(id: nat) | ByWaiting(id: nat)

  datatype World = World(
    supervisors: map<nat, Supervisor>,
    tasks: map<nat, Task>,
    waiting: map<nat, Waiting>,
    lock: Option<Holder>)

  /** `newTask` and `newWaiting` name the task and the waiting caller a step may create. */
  datatype Event =
    | Starts(id: nat, configured: bool, newTask: nat)
    | Changes(id: nat, configured: bool, newTask: nat, newWaiting: nat)
    | Stops(id: nat, newWaiting: nat)
    | ShutsDown(id: nat, newWaiting: nat)
    | Reports(task: nat)
    | Ends(task: nat, silently: bool)
    | Releases(waiting: nat)

  predicate AliveTask(w: World, task: nat) {
    task in w.tasks && !w.tasks[task].phase.Done?
  }

  predicate AliveController(w: World, id: nat) {
    id in w.supervisors && w.supervisors[id].controller.Some? && AliveTask(w, w.supervisors[id].controller.value)
  }

  /** The supervisor's new state, with the lock it took and the task it created. */
  function Settled(w: World, id: nat, s: Supervisor, newTask: nat): World
    requires id in w.supervisors
  {
    w.(supervisors := w.supervisors[id := s],
       lock := if s.ownership then Some(BySupervisor(id)) else w.lock,
       tasks := if s.controller == Some(newTask) && newTask !in w.tasks
                then w.tasks[newTask := Task(id, s.generation, Running)] else w.tasks)
  }

  /** The supervisor lets go; its lock and its task, now cancelled, pass to the waiting caller. */
  function LetGo(w: World, id: nat, s: Supervisor, newWaiting: nat): World
    requires id in w.supervisors
  {
    var before := w.supervisors[id];
    w.(supervisors := w.supervisors[id := s],
       waiting := w.waiting[newWaiting := Waiting(before.controller, before.ownership)],
       lock := if before.ownership then Some(ByWaiting(newWaiting)) else w.lock,
       tasks :=
        if AliveController(w, id)
        then w.tasks[before.controller.value := w.tasks[before.controller.value].(phase := Cancelling)]
        else w.tasks)
  }

  function Next(w: World, e: Event): World {
    match e
    case Starts(id, configured, newTask) =>
      if id !in w.supervisors || newTask in w.tasks then w
      else Settled(w, id, Start(w.supervisors[id], configured, w.lock.None?, AliveController(w, id), newTask), newTask)
    case Changes(id, configured, newTask, newWaiting) =>
      if id !in w.supervisors || newTask in w.tasks || newWaiting in w.waiting then w
      else
        var s := Changed(w.supervisors[id], configured, w.lock.None?, AliveController(w, id), newTask);
        if Detaches(w.supervisors[id], configured) then LetGo(w, id, s, newWaiting) else Settled(w, id, s, newTask)
    case Stops(id, newWaiting) =>
      if id !in w.supervisors || newWaiting in w.waiting then w else LetGo(w, id, Detach(w.supervisors[id]), newWaiting)
    case ShutsDown(id, newWaiting) =>
      if id !in w.supervisors || newWaiting in w.waiting then w
      else LetGo(w, id, Detach(w.supervisors[id]).(applicationRunning := false), newWaiting)
    case Reports(task) =>
      if task !in w.tasks || !w.tasks[task].phase.Running? || w.tasks[task].owner !in w.supervisors then w
      else
        var id := w.tasks[task].owner;
        w.(supervisors := w.supervisors[id := w.supervisors[id].(connection := Reconnecting)])
    case Ends(task, silently) =>
      if !AliveTask(w, task) || w.tasks[task].owner !in w.supervisors
        || (silently && w.tasks[task].phase.Running?) then w
      else Ended(w, task, silently)
    case Releases(waiting) =>
      if waiting !in w.waiting || (w.waiting[waiting].task.Some? && AliveTask(w, w.waiting[waiting].task.value)) then w
      else w.(waiting := w.waiting - {waiting}, lock := if w.waiting[waiting].ownsLock then None else w.lock)
  }

  /**
  A task's last write happens only while its generation is the current one; a task cancelled before it ran
  writes nothing.
  */
  function Ended(w: World, task: nat, silently: bool): World
    requires task in w.tasks && w.tasks[task].owner in w.supervisors
  {
    var t := w.tasks[task];
    var s := w.supervisors[t.owner];
    w.(tasks := w.tasks[task := t.(phase := Done)],
       supervisors := if !silently && t.generation == s.generation
                      then w.supervisors[t.owner := s.(connection := Disconnected)] else w.supervisors)
  }

  function AllIdle(ids: set<nat>): World {
    World(map id | id in ids :: IDLE, map[], map[], None)
  }

  function At(ids: set<nat>, es: seq<Event>, i: nat): World
    requires i <= |es|
  {
    if i == 0 then AllIdle(ids) else Next(At(ids, es, i - 1), es[i - 1])
  }
}

/** At most one companion runtime is alive, over all supervisors on the lock and all interleavings. */
module SupervisorSafety {
  import opened Common
  import opened SupervisorSteps

  /** A running task is its supervisor's controller, of the current generation, and that supervisor owns the lock. */
  ghost predicate ControllerOk(w: World, task: nat)
    requires task in w.tasks
  {
    var t := w.tasks[task];
    t.owner in w.supervisors
    && var s := w.supervisors[t.owner];
    s.controller == Some(task) && s.ownership && t.generation == s.generation
  }

  /** A cancelled task that is not done is awaited by a caller that holds the lock, and its generation is past. */
  ghost predicate AwaitedOk(w: World, task: nat)
    requires task in w.tasks
  {
    var t := w.tasks[task];
    t.owner in w.supervisors && t.generation < w.supervisors[t.owner].generation
    && exists d :: d in w.waiting && w.waiting[d].task == Some(task) && w.waiting[d].ownsLock
  }

  ghost predicate TaskOk(w: World, task: nat)
    requires task in w.tasks
  {
    match w.tasks[task].phase
    case Running => ControllerOk(w, task)
    case Cancelling => AwaitedOk(w, task)
    case Done => true
  }

  ghost predicate LockOk(w: World) {
    && (forall id :: id in w.supervisors ==> (w.supervisors[id].ownership <==> w.lock == Some(BySupervisor(id))))
    && (forall d :: d in w.waiting ==> (w.waiting[d].ownsLock <==> w.lock == Some(ByWaiting(d))))
    && (w.lock.Some? ==>
      if w.lock.value.BySupervisor? then w.lock.value.id in w.supervisors else w.lock.value.id in w.waiting)
  }

  /** A supervisor reports a connection only while its controller runs; every controller it names exists. */
  ghost predicate SupervisorOk(w: World, id: nat)
    requires id in w.supervisors
  {
    var s := w.supervisors[id];
    && (s.controller.Some? ==> s.controller.value in w.tasks && w.tasks[s.controller.value].owner == id
                               && !w.tasks[s.controller.value].phase.Cancelling?)
    && (s.connection.Reconnecting? ==> s.controller.Some? && w.tasks[s.controller.value].phase.Running?)
  }

  ghost predicate Inv(w: World) {
    && LockOk(w)
    && (forall task :: task in w.tasks ==> TaskOk(w, task))
    && (forall id :: id in w.supervisors ==> SupervisorOk(w, id))
    && (forall d :: d in w.waiting && w.waiting[d].task.Some? ==> w.waiting[d].task.value in w.tasks)
  }

  lemma SettledKeeps(w: World, id: nat, s: Supervisor, newTask: nat)
    requires Inv(w) && id in w.supervisors && newTask !in w.tasks
    requires w.supervisors[id].ownership || !s.ownership || w.lock.None?
    requires w.supervisors[id].ownership ==> s.ownership
    requires
      || (s.controller == w.supervisors[id].controller && s.generation == w.supervisors[id].generation
          && s.connection in {w.supervisors[id].connection, Disconnected})
      || (s.controller == Some(newTask) && s.generation > w.supervisors[id].generation && s.ownership
        && !AliveController(w, id))
    ensures Inv(Settled(w, id, s, newTask))
  {
    var t := Settled(w, id, s, newTask);
    assert LockOk(t);
    forall task | task in t.tasks ensures TaskOk(t, task) {
      if task != newTask {
        assert TaskOk(w, task);
      }
    }
    forall k | k in t.supervisors ensures SupervisorOk(t, k) {
      assert SupervisorOk(w, k);
    }
  }

  lemma StartsKeeps(w: World, id: nat, configured: bool, newTask: nat)
    requires Inv(w)
    ensures Inv(Next(w, Starts(id, configured, newTask)))
  {
    if id in w.supervisors && newTask !in w.tasks {
      assert SupervisorOk(w, id);
      AliveControllerOwns(w, id);
      SettledKeeps(w, id, Start(w.supervisors[id], configured, w.lock.None?, AliveController(w, id), newTask), newTask);
    }
  }

  lemma AliveControllerOwns(w: World, id: nat)
    requires Inv(w)
    ensures AliveController(w, id) ==>
      w.supervisors[id].ownership && w.tasks[w.supervisors[id].controller.value].phase.Running?
      && w.tasks[w.supervisors[id].controller.value].generation == w.supervisors[id].generation
  {
  }

  lemma LetGoKeeps(w: World, id: nat, s: Supervisor, newWaiting: nat)
    requires Inv(w) && id in w.supervisors && newWaiting !in w.waiting
    requires s.controller.None? && !s.ownership && s.generation == w.supervisors[id].generation + 1
      && s.connection.Disconnected?
    ensures Inv(LetGo(w, id, s, newWaiting))
  {
    var t := LetGo(w, id, s, newWaiting);
    assert SupervisorOk(w, id);
    AliveControllerOwns(w, id);
    assert LockOk(t);
    forall task | task in t.tasks ensures TaskOk(t, task) {
      assert TaskOk(w, task);
      LetGoTask(w, id, s, newWaiting, task);
    }
    forall k | k in t.supervisors ensures SupervisorOk(t, k) {
      assert SupervisorOk(w, k);
    }
  }

  lemma LetGoTask(w: World, id: nat, s: Supervisor, newWaiting: nat, task: nat)
    requires Inv(w) && id in w.supervisors && newWaiting !in w.waiting && task in w.tasks
    requires s.controller.None? && !s.ownership && s.generation == w.supervisors[id].generation + 1
      && s.connection.Disconnected?
    ensures TaskOk(LetGo(w, id, s, newWaiting), task)
  {
    var t := LetGo(w, id, s, newWaiting);
    assert TaskOk(w, task) && SupervisorOk(w, id);
    AliveControllerOwns(w, id);
    if w.tasks[task].phase.Cancelling? {
      var d :| d in w.waiting && w.waiting[d].task == Some(task) && w.waiting[d].ownsLock;
      assert t.waiting[d] == w.waiting[d];
    } else if w.supervisors[id].controller == Some(task) && w.tasks[task].phase.Running? {
      assert t.waiting[newWaiting].task == Some(task) && t.waiting[newWaiting].ownsLock;
    }
  }

  lemma ChangesKeeps(w: World, id: nat, configured: bool, newTask: nat, newWaiting: nat)
    requires Inv(w)
    ensures Inv(Next(w, Changes(id, configured, newTask, newWaiting)))
  {
    if id in w.supervisors && newTask !in w.tasks && newWaiting !in w.waiting {
      var s := Changed(w.supervisors[id], configured, w.lock.None?, AliveController(w, id), newTask);
      AliveControllerOwns(w, id);
      if Detaches(w.supervisors[id], configured) {
        LetGoKeeps(w, id, s, newWaiting);
      } else {
        SettledKeeps(w, id, s, newTask);
      }
    }
  }

  lemma ReportsKeeps(w: World, task: nat)
    requires Inv(w)
    ensures Inv(Next(w, Reports(task)))
  {
  }

  lemma EndedKeeps(w: World, task: nat, silently: bool)
    requires Inv(w) && AliveTask(w, task) && w.tasks[task].owner in w.supervisors
      && (silently ==> !w.tasks[task].phase.Running?)
    ensures Inv(Ended(w, task, silently))
  {
    var t := Ended(w, task, silently);
    assert TaskOk(w, task);
    forall k | k in t.tasks ensures TaskOk(t, k) {
      assert TaskOk(w, k);
    }
    forall k | k in t.supervisors ensures SupervisorOk(t, k) {
      assert SupervisorOk(w, k);
    }
  }

  lemma ReleasesKeeps(w: World, waiting: nat)
    requires Inv(w)
    ensures Inv(Next(w, Releases(waiting)))
  {
  }

  lemma NextKeeps(w: World, e: Event)
    requires Inv(w)
    ensures Inv(Next(w, e))
  {
    match e
    case Starts(id, configured, newTask) => StartsKeeps(w, id, configured, newTask);
    case Changes(id, configured, newTask, newWaiting) => ChangesKeeps(w, id, configured, newTask, newWaiting);
    case Stops(id, newWaiting) =>
      if id in w.supervisors && newWaiting !in w.waiting { LetGoKeeps(w, id, Detach(w.supervisors[id]), newWaiting); }
    case ShutsDown(id, newWaiting) =>
      if id in w.supervisors && newWaiting !in w.waiting {
        LetGoKeeps(w, id, Detach(w.supervisors[id]).(applicationRunning := false), newWaiting);
      }
    case Reports(task) => ReportsKeeps(w, task);
    case Ends(task, silently) =>
      if AliveTask(w, task) && w.tasks[task].owner in w.supervisors && !(silently && w.tasks[task].phase.Running?) {
        EndedKeeps(w, task, silently);
      }
    case Releases(waiting) => ReleasesKeeps(w, waiting);
  }

  lemma {:induction false} InvAlways(ids: set<nat>, es: seq<Event>, i: nat)
    requires i <= |es|
    ensures Inv(At(ids, es, i))
  {
    if i > 0 {
      InvAlways(ids, es, i - 1);
      NextKeeps(At(ids, es, i - 1), es[i - 1]);
    }
  }

  // ----- the guarantees -----

  /** At every moment of every run at most one task is alive, whoever started it, and the lock is held while it is. */
  lemma AtMostOneRuntime(ids: set<nat>, es: seq<Event>, i: nat, p: nat, q: nat)
    requires i <= |es| && AliveTask(At(ids, es, i), p) && AliveTask(At(ids, es, i), q)
    ensures p == q && At(ids, es, i).lock.Some?
  {
    InvAlways(ids, es, i);
    HoldsLock(At(ids, es, i), p);
    HoldsLock(At(ids, es, i), q);
  }

  /** The holder of the lock names the task that is alive. */
  lemma HoldsLock(w: World, task: nat)
    requires Inv(w) && AliveTask(w, task)
    ensures w.lock.Some?
    ensures match w.lock.value
            case BySupervisor(id) => id in w.supervisors && w.supervisors[id].controller == Some(task)
            case ByWaiting(d) => d in w.waiting && w.waiting[d].task == Some(task)
  {
  }

  /** The last write of a superseded or cancelled task changes no supervisor. */
  lemma SupersededWritesNothing(ids: set<nat>, es: seq<Event>, i: nat, task: nat, silently: bool)
    requires i <= |es| && task in At(ids, es, i).tasks
    requires var w := At(ids, es, i);
      w.tasks[task].phase.Cancelling? || (w.tasks[task].owner in w.supervisors
        && w.tasks[task].generation != w.supervisors[w.tasks[task].owner].generation)
    ensures Next(At(ids, es, i), Ends(task, silently)).supervisors == At(ids, es, i).supervisors
  {
    InvAlways(ids, es, i);
    assert TaskOk(At(ids, es, i), task);
  }

  /** Whenever a supervisor reports a connection its own current task is running. */
  lemma ReportedMeansRunning(ids: set<nat>, es: seq<Event>, i: nat, id: nat)
    requires i <= |es| && id in At(ids, es, i).supervisors && At(ids, es, i).supervisors[id].connection.Reconnecting?
    ensures var w := At(ids, es, i); var s := w.supervisors[id];
      && s.controller.Some? && s.ownership && s.controller.value in w.tasks
        && w.tasks[s.controller.value].phase.Running?
      && w.tasks[s.controller.value].generation == s.generation
  {
    InvAlways(ids, es, i);
    assert SupervisorOk(At(ids, es, i), id);
    assert TaskOk(At(ids, es, i), At(ids, es, i).supervisors[id].controller.value);
  }

  /** The reported state is exact: a connection is reported if and only if a controller is alive. */
  ghost predicate Exact(w: World, id: nat) {
    id in w.supervisors ==> (w.supervisors[id].connection.Reconnecting? <==> AliveController(w, id))
  }

  /** Exactness is lost by one step only: starting again, unpaired, while the controller is still alive. */
  lemma ExactLostIff(ids: set<nat>, es: seq<Event>, i: nat, id: nat)
    requires i < |es| && Exact(At(ids, es, i), id)
    ensures Exact(At(ids, es, i + 1), id) <==>
      !(es[i].Starts? && es[i].id == id && !es[i].configured && es[i].newTask !in At(ids, es, i).tasks
        && AliveController(At(ids, es, i), id))
  {
    var w := At(ids, es, i);
    InvAlways(ids, es, i);
    ExactStep(w, es[i], id);
  }

  lemma ExactStart(w: World, id: nat, configured: bool, newTask: nat, other: nat)
    requires Inv(w) && Exact(w, id)
    ensures Exact(Next(w, Starts(other, configured, newTask)), id) <==>
      !(other == id && !configured && newTask !in w.tasks && AliveController(w, id))
  {
  }

  lemma ExactTask(w: World, e: Event, id: nat)
    requires Inv(w) && Exact(w, id) && (e.Reports? || e.Ends?)
    ensures Exact(Next(w, e), id)
  {
  }

  lemma ExactSettled(w: World, owner: nat, s: Supervisor, newTask: nat, id: nat)
    requires Inv(w) && Exact(w, id) && owner in w.supervisors && newTask !in w.tasks
    requires
      || (s.controller == w.supervisors[owner].controller && s.connection == w.supervisors[owner].connection)
      || (s.controller == Some(newTask) && s.connection.Reconnecting?)
    ensures Exact(Settled(w, owner, s, newTask), id)
  {
  }

  lemma ExactLetGo(w: World, owner: nat, s: Supervisor, newWaiting: nat, id: nat)
    requires Inv(w) && Exact(w, id) && owner in w.supervisors
    requires s.controller.None? && s.connection.Disconnected?
    ensures Exact(LetGo(w, owner, s, newWaiting), id)
  {
  }

  lemma ExactRest(w: World, e: Event, id: nat)
    requires Inv(w) && Exact(w, id) && !e.Starts? && !e.Reports? && !e.Ends?
    ensures Exact(Next(w, e), id)
  {
    match e
    case Changes(owner, configured, newTask, newWaiting) =>
      if owner in w.supervisors && newTask !in w.tasks && newWaiting !in w.waiting {
        var s := Changed(w.supervisors[owner], configured, w.lock.None?, AliveController(w, owner), newTask);
        if Detaches(w.supervisors[owner], configured) {
          ExactLetGo(w, owner, s, newWaiting, id);
        } else {
          ExactSettled(w, owner, s, newTask, id);
        }
      }
    case Stops(owner, newWaiting) =>
      if owner in w.supervisors && newWaiting !in w.waiting {
        ExactLetGo(w, owner, Detach(w.supervisors[owner]), newWaiting, id);
      }
    case ShutsDown(owner, newWaiting) =>
      if owner in w.supervisors && newWaiting !in w.waiting {
        ExactLetGo(w, owner, Detach(w.supervisors[owner]).(applicationRunning := false), newWaiting, id);
      }
    case _ =>
  }

  lemma ExactStep(w: World, e: Event, id: nat)
    requires Inv(w) && Exact(w, id)
    ensures Exact(Next(w, e), id) <==>
      !(e.Starts? && e.id == id && !e.configured && e.newTask !in w.tasks && AliveController(w, id))
  {
    match e
    case Starts(other, configured, newTask) => ExactStart(w, id, configured, newTask, other);
    case Reports(_) => ExactTask(w, e, id);
    case Ends(_, _) => ExactTask(w, e, id);
    case _ => ExactRest(w, e, id);
  }

  /**
  The failing side: a paired start, then an unpaired one, and the supervisor says disconnected over a live
  controller.
  */
  lemma UnpairedRestartMisreports()
    ensures var es := [Starts(1, true, 10), Starts(1, false, 11)];
      && Exact(At({1}, es, 1), 1) && AliveController(At({1}, es, 1), 1)
      && AliveController(At({1}, es, 2), 1) && At({1}, es, 2).supervisors[1].connection.Disconnected?
      && !Exact(At({1}, es, 2), 1)
  {
    var es := [Starts(1, true, 10), Starts(1, false, 11)];
    assert At({1}, es, 0) == AllIdle({1});
    var started := At({1}, es, 1);
    assert started.supervisors[1] == Supervisor(Some(10), true, true, 1, Reconnecting);
    assert started.tasks == map[10 := Task(1, 1, Running)];
    assert At({1}, es, 2) == Next(started, es[1]);
  }
}
